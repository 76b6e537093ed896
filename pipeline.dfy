/** The pipeline orchestrator (app/pipeline.py): find or create the run for
    a key, reuse it unless it failed, and otherwise run the four steps in
    order, each attempt recorded in the ledger and retried through the
    retry loop, folding any failure into a failed run.

    The two steps that touch the file system are oracles: `ingest(k)` and
    `publishOutputs(k)` say what the k-th call of that step body returns or
    raises. */
module Pipeline {
  import opened Builtins
  import opened Schemas
  import opened Entities
  import opened RunStore
  import opened RetryExecutor
  import opened StepLogic

  const Ingest := "ingest"
  const Transform := "transform"
  const Validate := "validate"
  const PublishReport := "publish_report"

  /** The settings the runner reads. */
  datatype Settings = Settings(maxStepRetries: int, retryBackoff: int, outputDir: string)

  /** The step bodies that read and write files. */
  datatype Oracles = Oracles(ingest: nat -> Outcome<seq<Record>>, publishOutputs: nat -> Outcome<()>)

  datatype PipelineResult = PipelineResult(
    runId: nat,
    runKey: string,
    runDate: Date,
    triggerSource: string,
    status: RunStatus,
    totalRecords: int,
    validRecords: int,
    invalidRecords: int,
    reportPath: string,
    reusedExistingRun: bool)

  // ---------------------------------------------------------------------
  // The pure helpers of the runner

  /** `_is_retryable`: a missing or unparsable input file does not recover
      on retry; everything else may. */
  function IsRetryable(stepName: string, e: Error): bool {
    !(stepName == Ingest && (e.FileNotFound? || e.JsonDecode?))
  }

  /** The `should_retry` predicate `_run_step` passes for a step. */
  function RetryPolicy(stepName: string): Error -> bool {
    (e: Error) => IsRetryable(stepName, e)
  }

  lemma RetryableExactly(stepName: string, e: Error)
    ensures !IsRetryable(stepName, e) <==> stepName == Ingest && (e.FileNotFound? || e.JsonDecode?)
    ensures ShouldRetry(Some(RetryPolicy(stepName)), e) == IsRetryable(stepName, e)
  {
  }

  /** A step body that always returns `v`. */
  function Always<T>(v: T): nat -> Outcome<T> {
    (k: nat) => Returned(v)
  }

  predicate IsAttemptOf(s: StepRun, runId: nat, stepName: string) {
    s.runId == runId && s.stepName == stepName
  }

  /** The highest attempt number recorded for a run and step. */
  function MaxAttempt(steps: seq<StepRun>, runId: nat, stepName: string): Option<int>
    decreases |steps|
  {
    if steps == [] then None
    else
      var n := |steps| - 1;
      var rest := MaxAttempt(steps[..n], runId, stepName);
      if IsAttemptOf(steps[n], runId, stepName) && (rest.None? || rest.value < steps[n].attempt) then Some(steps[n].attempt)
      else rest
  }

  /** `MaxAttempt` is the maximum: none when the step has no row, otherwise
      the attempt number of one of its rows and at least that of every
      other. */
  lemma {:induction false} MaxAttemptSpec(steps: seq<StepRun>, runId: nat, stepName: string)
    ensures var m := MaxAttempt(steps, runId, stepName);
      m.None? <==> forall i :: 0 <= i < |steps| ==> !IsAttemptOf(steps[i], runId, stepName)
    ensures var m := MaxAttempt(steps, runId, stepName);
      m.Some? ==> exists i :: 0 <= i < |steps| && IsAttemptOf(steps[i], runId, stepName) && steps[i].attempt == m.value
    ensures var m := MaxAttempt(steps, runId, stepName);
      m.Some? ==> forall i :: 0 <= i < |steps| && IsAttemptOf(steps[i], runId, stepName) ==> steps[i].attempt <= m.value
    decreases |steps|
  {
    if steps != [] {
      var n := |steps| - 1;
      MaxAttemptSpec(steps[..n], runId, stepName);
      assert forall i :: 0 <= i < n ==> steps[..n][i] == steps[i];
    }
  }

  /** `_next_attempt`: one more than the highest attempt recorded for the
      run and step, or 1 when there is none. */
  function NextAttempt(steps: seq<StepRun>, runId: nat, stepName: string): int {
    var current := MaxAttempt(steps, runId, stepName);
    if current.Some? then current.value + 1 else 1
  }

  /** The next attempt number is above every recorded attempt of the step,
      and it is 1 when there is none and one more than a recorded attempt
      otherwise: it is `max + 1`. */
  lemma NextAttemptSpec(steps: seq<StepRun>, runId: nat, stepName: string)
    ensures forall i :: 0 <= i < |steps| && IsAttemptOf(steps[i], runId, stepName) ==>
      steps[i].attempt < NextAttempt(steps, runId, stepName)
    ensures || (NextAttempt(steps, runId, stepName) == 1 && forall i :: 0 <= i < |steps| ==> !IsAttemptOf(steps[i], runId, stepName))
            || exists i :: 0 <= i < |steps| && IsAttemptOf(steps[i], runId, stepName)
                 && steps[i].attempt == NextAttempt(steps, runId, stepName) - 1
  {
    MaxAttemptSpec(steps, runId, stepName);
  }

  /** The attempt number `_next_attempt` picks is never taken, so creating
      the attempt row cannot break `uq_step_attempt`. */
  lemma NextAttemptIsFree(t: Tables, runId: nat, stepName: string)
    ensures !HasAttempt(t, runId, stepName, NextAttempt(t.steps, runId, stepName))
  {
    NextAttemptSpec(t.steps, runId, stepName);
  }

  /** The message `_run_step` wraps an exhausted retry loop in. */
  function StepFailureMessage(stepName: string, message: string): string {
    "step '" + stepName + "' failed after retries: " + message
  }

  /** `_report_path`: `str(Path(output_dir) / "reports" / f"{run_key}.json")`. */
  function ReportPath(outputDir: string, runKey: string): string {
    PathText(JoinPath(JoinPath(ParsePath(outputDir), "reports"), runKey + ".json"))
  }

  /** The reports directory under `output_dir`. */
  function ReportsDir(outputDir: string): string {
    PathText(JoinPath(ParsePath(outputDir), "reports"))
  }

  /** A key without a separator, such as the default key (the run date in
      ISO form), names the file `<key>.json` in the reports directory. */
  lemma ReportPathOfPlainKey(outputDir: string, runKey: string)
    requires '/' !in runKey
    ensures ReportPath(outputDir, runKey) == ReportsDir(outputDir) + "/" + runKey + ".json"
  {
    ReportFileIsName(runKey);
    var dir := JoinPath(ParsePath(outputDir), "reports");
    assert IsName("reports");
    JoinName(ParsePath(outputDir), "reports");
    JoinName(dir, runKey + ".json");
    PathTextAppend(dir, runKey + ".json");
  }

  lemma ReportFileIsName(runKey: string)
    requires '/' !in runKey
    ensures IsName(runKey + ".json")
  {
    var file := runKey + ".json";
    assert |file| >= 5;
    forall i | 0 <= i < |file| ensures file[i] != '/' {
      if i < |runKey| { assert file[i] == runKey[i]; } else { assert file[i] == ".json"[i - |runKey|]; }
    }
  }

  /** Keys without a separator get different report files. */
  lemma ReportPathInjective(outputDir: string, k1: string, k2: string)
    requires '/' !in k1 && '/' !in k2
    requires ReportPath(outputDir, k1) == ReportPath(outputDir, k2)
    ensures k1 == k2
  {
    ReportPathOfPlainKey(outputDir, k1);
    ReportPathOfPlainKey(outputDir, k2);
    var prefix := ReportsDir(outputDir) + "/";
    var p1, p2 := ReportPath(outputDir, k1), ReportPath(outputDir, k2);
    assert p1 == prefix + k1 + ".json" && p2 == prefix + k2 + ".json";
    assert |k1| == |k2|;
    assert k1 == p1[|prefix|..|prefix| + |k1|];
    assert k2 == p2[|prefix|..|prefix| + |k2|];
  }

  /** The path collapses a repeated separator and a "." part inside the
      key, so three different keys such as "x/y", "x//y" and "x/./y" share
      one report file. */
  lemma ReportPathCollision(outputDir: string, dir: string, name: string)
    requires IsName(dir) && '/' !in name
    ensures dir + "//" + name != dir + "/" + name && dir + "/./" + name != dir + "/" + name
    ensures ReportPath(outputDir, dir + "//" + name) == ReportPath(outputDir, dir + "/" + name)
    ensures ReportPath(outputDir, dir + "/./" + name) == ReportPath(outputDir, dir + "/" + name)
  {
    var file := name + ".json";
    ReportFileIsName(name);
    ParseTwoNames(dir, file);
    assert dir + "/" + name + ".json" == dir + "/" + file;
    assert dir + "//" + name + ".json" == dir + "//" + file;
    assert dir + "/./" + name + ".json" == dir + "/./" + file;
    assert |dir + "//" + name| != |dir + "/" + name|;
    assert |dir + "/./" + name| != |dir + "/" + name|;
  }

  /** `_result_from_run`: the stored run's fields, the report path and
      whether the run was reused. */
  function ResultFromRun(run: PipelineRun, reportPath: string, reused: bool): PipelineResult {
    PipelineResult(run.id, run.runKey, run.runDate, run.triggerSource, run.status,
                   run.totalRecords, run.validRecords, run.invalidRecords, reportPath, reused)
  }

  // ---------------------------------------------------------------------
  // _run_step as a value

  /** A step's end: the ledger after it, how the retry loop ended, and how
      many times the unit of work ran. */
  datatype StepEnd<T> = StepEnd(db: Db, result: RetryResult<T>, calls: nat)

  /** Tables that only gained step rows: runs, dead letters and published
      records as before, the earlier step rows untouched. */
  predicate OnlyStepsAppended(db: Db, db': Db) {
    && db'.tables.runs == db.tables.runs
    && db'.tables.deadLetters == db.tables.deadLetters
    && db'.tables.published == db.tables.published
    && |db.tables.steps| <= |db'.tables.steps|
    && db'.tables.steps[..|db.tables.steps|] == db.tables.steps
  }

  /** One try of `execute_once(_next_attempt(...))` at call `k`: create the
      attempt row, run the body, finish the row. The insert is never
      refused, since the attempt number is a free one. */
  function TryOnce<T>(db: Db, runId: nat, stepName: string, work: nat -> Outcome<T>, k: nat): (r: (Db, Outcome<T>))
    requires Consistent(db)
    ensures Consistent(r.0) && OnlyStepsAppended(db, r.0)
  {
    var attempt := NextAttempt(db.tables.steps, runId, stepName);
    CreateStepSpec(db, runId, stepName, attempt);
    NextAttemptIsFree(db.tables, runId, stepName);
    var (db1, created) := CreateStep(db, runId, stepName, attempt);
    var id := created.value.id;
    assert db1.tables.steps[|db.tables.steps|].id == id;
    var outcome := work(k);
    if outcome.Returned? then
      FinishSuccessSpec(db1, id);
      (FinishSuccess(db1, id), outcome)
    else
      FinishFailureSpec(db1, id, Str(outcome.error));
      (FinishFailure(db1, id, Str(outcome.error)), outcome)
  }

  /** The retry loop of `_run_step` from call `k` on. */
  function StepFrom<T>(db: Db, runId: nat, stepName: string, work: nat -> Outcome<T>, settings: Settings, k: nat): (r: StepEnd<T>)
    requires Consistent(db) && 1 <= k <= settings.maxStepRetries + 1
    ensures Consistent(r.db) && OnlyStepsAppended(db, r.db)
    decreases settings.maxStepRetries + 1 - k
  {
    var (db1, outcome) := TryOnce(db, runId, stepName, work, k);
    match outcome
    case Returned(v) => StepEnd(db1, Success(v), k)
    case Raised(e) =>
      if k > settings.maxStepRetries || !IsRetryable(stepName, e) then StepEnd(db1, Exhausted(Str(e)), k)
      else if settings.retryBackoff * k < 0 then StepEnd(db1, Escaped(NegativeSleep), k)
      else
        var r := StepFrom(db1, runId, stepName, work, settings, k + 1);
        assert r.db.tables.steps[..|db.tables.steps|] == r.db.tables.steps[..|db1.tables.steps|][..|db.tables.steps|];
        r
  }

  /** `run_with_retries` over the step's tries. */
  function RunStepSpec<T>(db: Db, runId: nat, stepName: string, work: nat -> Outcome<T>, settings: Settings): (r: StepEnd<T>)
    requires Consistent(db)
    ensures Consistent(r.db) && OnlyStepsAppended(db, r.db)
  {
    if settings.maxStepRetries < 0 then StepEnd(db, Exhausted(NoErrorText), 0)
    else StepFrom(db, runId, stepName, work, settings, 1)
  }

  /** The retry loop of `_run_step` after the try at call `k`: it ends
      with the value when the try returned; after an exception it stops
      with the exhaustion when the calls are used up or the exception is
      not retryable, raises out of the sleep when the delay is negative,
      and otherwise goes on with call `k + 1`. */
  lemma StepFromAfterTry<T>(db: Db, runId: nat, stepName: string, work: nat -> Outcome<T>, settings: Settings, k: nat,
                            db1: Db, o: Outcome<T>)
    requires Consistent(db) && 1 <= k <= settings.maxStepRetries + 1
    requires TryOnce(db, runId, stepName, work, k) == (db1, o)
    ensures o.Returned? ==> StepFrom(db, runId, stepName, work, settings, k) == StepEnd(db1, Success(o.value), k)
    ensures o.Raised? && (k > settings.maxStepRetries || !IsRetryable(stepName, o.error)) ==>
      StepFrom(db, runId, stepName, work, settings, k) == StepEnd(db1, Exhausted(Str(o.error)), k)
    ensures o.Raised? && k <= settings.maxStepRetries && IsRetryable(stepName, o.error) && settings.retryBackoff * k < 0 ==>
      StepFrom(db, runId, stepName, work, settings, k) == StepEnd(db1, Escaped(NegativeSleep), k)
    ensures o.Raised? && k <= settings.maxStepRetries && IsRetryable(stepName, o.error) && settings.retryBackoff * k >= 0 ==>
      Consistent(db1) && StepFrom(db, runId, stepName, work, settings, k) == StepFrom(db1, runId, stepName, work, settings, k + 1)
  {
  }

  /** What `_run_step` returns or raises: the value, the exhaustion wrapped
      in a message naming the step, or the exception that escaped. */
  function StepOutcome<T>(r: RetryResult<T>, stepName: string): Outcome<T> {
    match r
    case Success(v) => Returned(v)
    case Exhausted(message) => Raised(Other(StepFailureMessage(stepName, message)))
    case Escaped(e) => Raised(e)
  }

  // ---------------------------------------------------------------------
  // What a step leaves in the ledger

  /** A finished attempt row that agrees with how its try ended: succeeded
      with no error, or failed with the exception's text. */
  predicate FinishedAs<T>(row: StepRun, o: Outcome<T>) {
    match o
    case Returned(_) => row.status == StepSucceeded && row.error == None
    case Raised(e) => row.status == StepFailed && row.error == Some(Str(e))
  }

  /** Recording attempt `NextAttempt(...)` of a step moves the next attempt
      number of that step up by one. */
  lemma NextAttemptAfterAppend(steps: seq<StepRun>, row: StepRun, runId: nat, stepName: string)
    requires IsAttemptOf(row, runId, stepName) && row.attempt == NextAttempt(steps, runId, stepName)
    ensures NextAttempt(steps + [row], runId, stepName) == row.attempt + 1
  {
    var all := steps + [row];
    NextAttemptSpec(steps, runId, stepName);
    NextAttemptSpec(all, runId, stepName);
    assert all[|steps|] == row;
    forall i | 0 <= i < |all| && IsAttemptOf(all[i], runId, stepName)
      ensures all[i].attempt <= row.attempt
    {
      if i < |steps| {
        assert all[i] == steps[i];
      }
    }
  }

  /** One try adds exactly one attempt row for the step, numbered
      `NextAttempt(...)`, finished as the body's call `k` ended; the try's
      outcome is that call's. */
  lemma TryOnceRow<T>(db: Db, runId: nat, stepName: string, work: nat -> Outcome<T>, k: nat)
    requires Consistent(db)
    ensures |TryOnce(db, runId, stepName, work, k).0.tables.steps| == |db.tables.steps| + 1
    ensures TryOnce(db, runId, stepName, work, k).1 == work(k)
    ensures var row := TryOnce(db, runId, stepName, work, k).0.tables.steps[|db.tables.steps|];
      && IsAttemptOf(row, runId, stepName)
      && row.attempt == NextAttempt(db.tables.steps, runId, stepName)
      && FinishedAs(row, work(k))
  {
    var attempt := NextAttempt(db.tables.steps, runId, stepName);
    CreateStepSpec(db, runId, stepName, attempt);
    NextAttemptIsFree(db.tables, runId, stepName);
    var (db1, created) := CreateStep(db, runId, stepName, attempt);
    var id := created.value.id;
    assert db1.tables.steps[|db.tables.steps|].id == id;
    assert StepIndex(db1.tables, id) == |db.tables.steps| by {
      var i := StepIndex(db1.tables, id);
      assert DistinctBy(db1.tables.steps, StepId);
      assert StepId(db1.tables.steps[i]) == StepId(db1.tables.steps[|db.tables.steps|]);
    }
    if work(k).Returned? {
      FinishSuccessSpec(db1, id);
    } else {
      FinishFailureSpec(db1, id, Str(work(k).error));
    }
  }

  /** `row` is the attempt row numbered `attempt` of the step, finished as
      outcome `o`. */
  predicate RecordsCall<T>(row: StepRun, runId: nat, stepName: string, attempt: int, o: Outcome<T>) {
    IsAttemptOf(row, runId, stepName) && row.attempt == attempt && FinishedAs(row, o)
  }

  /** `rows` are the attempt rows of calls `k`, `k + 1`, ... of a step, in
      that order, numbered on from `first`, each finished as its call
      ended. */
  predicate RecordCalls<T>(rows: seq<StepRun>, runId: nat, stepName: string, first: int, work: nat -> Outcome<T>, k: nat) {
    forall j :: 0 <= j < |rows| ==> RecordsCall(rows[j], runId, stepName, first + j, work(k + j))
  }

  lemma RecordCallsAt<T>(rows: seq<StepRun>, runId: nat, stepName: string, first: int, work: nat -> Outcome<T>, k: nat, j: nat)
    requires RecordCalls(rows, runId, stepName, first, work, k) && j < |rows|
    ensures RecordsCall(rows[j], runId, stepName, first + j, work(k + j))
  {
  }

  /** The retry loop of a step from call `k` on adds one attempt row per
      call, in call order, numbered on from the step's next attempt number
      and finished as each call ended. */
  lemma {:induction false} StepFromRows<T>(db: Db, runId: nat, stepName: string, work: nat -> Outcome<T>,
                                           settings: Settings, k: nat)
    requires Consistent(db) && 1 <= k <= settings.maxStepRetries + 1
    ensures var r := StepFrom(db, runId, stepName, work, settings, k);
      k <= r.calls && |r.db.tables.steps| == |db.tables.steps| + r.calls - k + 1
    ensures var r := StepFrom(db, runId, stepName, work, settings, k);
      RecordCalls(r.db.tables.steps[|db.tables.steps|..], runId, stepName,
                  NextAttempt(db.tables.steps, runId, stepName), work, k)
    decreases settings.maxStepRetries + 1 - k
  {
    TryOnceRow(db, runId, stepName, work, k);
    var (db1, outcome) := TryOnce(db, runId, stepName, work, k);
    StepFromAfterTry(db, runId, stepName, work, settings, k, db1, outcome);
    var n := |db.tables.steps|;
    var next := NextAttempt(db.tables.steps, runId, stepName);
    var row := db1.tables.steps[n];
    assert RecordsCall(row, runId, stepName, next, work(k));
    if outcome.Raised? && k <= settings.maxStepRetries && IsRetryable(stepName, outcome.error)
       && settings.retryBackoff * k >= 0 {
      StepFromRows(db1, runId, stepName, work, settings, k + 1);
      var r := StepFrom(db1, runId, stepName, work, settings, k + 1);
      assert db1.tables.steps == db.tables.steps + [row];
      NextAttemptAfterAppend(db.tables.steps, row, runId, stepName);
      var rows, later := r.db.tables.steps[n..], r.db.tables.steps[n + 1..];
      assert rows[0] == row by {
        assert r.db.tables.steps[..n + 1] == db1.tables.steps;
        assert r.db.tables.steps[n] == r.db.tables.steps[..n + 1][n];
      }
      assert RecordCalls(later, runId, stepName, next + 1, work, k + 1);
      forall j | 0 <= j < |rows|
        ensures RecordsCall(rows[j], runId, stepName, next + j, work(k + j))
      {
        if j > 0 {
          assert rows[j] == later[j - 1];
          RecordCallsAt(later, runId, stepName, next + 1, work, k + 1, j - 1);
        }
      }
    } else {
      assert db1.tables.steps[n..] == [row];
    }
  }

  /** A step's retry loop ends as the retry executor's does over the same
      calls, with `_is_retryable` as the predicate, after as many calls. */
  lemma {:induction false} StepFromMatchesRetry<T>(db: Db, runId: nat, stepName: string, work: nat -> Outcome<T>,
                                                   settings: Settings, k: nat,
                                                   failures: seq<(nat, Error)>, sleeps: seq<int>)
    requires Consistent(db) && 1 <= k <= settings.maxStepRetries + 1
    ensures var r := StepFrom(db, runId, stepName, work, settings, k);
      var t := RetryFrom(work, settings.maxStepRetries, settings.retryBackoff, Some(RetryPolicy(stepName)), k, failures, sleeps);
      r.result == t.result && r.calls == t.calls
    decreases settings.maxStepRetries + 1 - k
  {
    TryOnceRow(db, runId, stepName, work, k);
    var (db1, outcome) := TryOnce(db, runId, stepName, work, k);
    StepFromAfterTry(db, runId, stepName, work, settings, k, db1, outcome);
    if outcome.Raised? {
      RetryableExactly(stepName, outcome.error);
    }
    if outcome.Raised? && k <= settings.maxStepRetries && IsRetryable(stepName, outcome.error)
       && settings.retryBackoff * k >= 0 {
      StepFromMatchesRetry(db1, runId, stepName, work, settings, k + 1,
                           failures + [(k, work(k).error)], sleeps + [settings.retryBackoff * k]);
    }
  }

  /** `_run_step` retries exactly as `run_with_retries` does: same result,
      same number of calls. Every property of the retry executor therefore
      holds of each step. */
  lemma RunStepMatchesRetry<T>(db: Db, runId: nat, stepName: string, work: nat -> Outcome<T>, settings: Settings)
    requires Consistent(db)
    ensures var t := Retry(work, settings.maxStepRetries, settings.retryBackoff, Some(RetryPolicy(stepName)));
      RunStepSpec(db, runId, stepName, work, settings).result == t.result
      && RunStepSpec(db, runId, stepName, work, settings).calls == t.calls
  {
    if settings.maxStepRetries >= 0 {
      StepFromMatchesRetry(db, runId, stepName, work, settings, 1, [], []);
    }
  }

  /** Each call of a step's body leaves one attempt row, numbered on from
      the step's earlier attempts, so a step's attempt numbers are
      consecutive; each row is succeeded or failed with the error text as
      its call ended. With `max_step_retries < 0` nothing is recorded. */
  lemma RunStepRows<T>(db: Db, runId: nat, stepName: string, work: nat -> Outcome<T>, settings: Settings)
    requires Consistent(db)
    ensures var r := RunStepSpec(db, runId, stepName, work, settings);
      |r.db.tables.steps| == |db.tables.steps| + r.calls
    ensures var r := RunStepSpec(db, runId, stepName, work, settings);
      RecordCalls(r.db.tables.steps[|db.tables.steps|..], runId, stepName,
                  NextAttempt(db.tables.steps, runId, stepName), work, 1)
  {
    if settings.maxStepRetries >= 0 {
      StepFromRows(db, runId, stepName, work, settings, 1);
    } else {
      assert db.tables.steps[|db.tables.steps|..] == [];
    }
  }

  /** A retryable step that fails on every call leaves `max_step_retries + 1`
      failed attempt rows and ends exhausted with the last error. */
  lemma AlwaysFailingStep<T>(db: Db, runId: nat, stepName: string, work: nat -> Outcome<T>, settings: Settings)
    requires Consistent(db) && settings.maxStepRetries >= 0 && settings.retryBackoff >= 0
    requires forall i :: 1 <= i <= settings.maxStepRetries + 1 ==> work(i).Raised? && IsRetryable(stepName, work(i).error)
    ensures var r := RunStepSpec(db, runId, stepName, work, settings);
      && r.calls == settings.maxStepRetries + 1
      && r.result == Exhausted(Str(work(settings.maxStepRetries + 1).error))
      && |r.db.tables.steps| == |db.tables.steps| + settings.maxStepRetries + 1
      && forall j :: |db.tables.steps| <= j < |r.db.tables.steps| ==>
           IsAttemptOf(r.db.tables.steps[j], runId, stepName) && r.db.tables.steps[j].status == StepFailed
  {
    var policy := Some(RetryPolicy(stepName));
    forall i | 1 <= i <= settings.maxStepRetries + 1
      ensures work(i).Raised? && ShouldRetry(policy, work(i).error)
    {
      RetryableExactly(stepName, work(i).error);
    }
    RetryAlwaysFailing(work, settings.maxStepRetries, settings.retryBackoff, policy);
    RunStepMatchesRetry(db, runId, stepName, work, settings);
    RunStepRows(db, runId, stepName, work, settings);
    var r := RunStepSpec(db, runId, stepName, work, settings);
    var n := |db.tables.steps|;
    forall j | n <= j < |r.db.tables.steps|
      ensures IsAttemptOf(r.db.tables.steps[j], runId, stepName) && r.db.tables.steps[j].status == StepFailed
    {
      var rows := r.db.tables.steps[n..];
      assert rows[j - n] == r.db.tables.steps[j];
      assert RecordsCall(rows[j - n], runId, stepName, NextAttempt(db.tables.steps, runId, stepName) + (j - n), work(1 + (j - n)));
    }
  }

  /** A step whose first call ends it, by returning or by an exception that
      is not retried, calls its body once and leaves one attempt row,
      numbered on from the step's earlier attempts and finished as that
      call ended. */
  lemma StepEndsAtFirstTry<T>(db: Db, runId: nat, stepName: string, work: nat -> Outcome<T>, settings: Settings)
    requires Consistent(db) && settings.maxStepRetries >= 0
    requires work(1).Returned? || !IsRetryable(stepName, work(1).error)
    ensures var r := RunStepSpec(db, runId, stepName, work, settings);
      && r.calls == 1
      && r.result == (if work(1).Returned? then Success(work(1).value) else Exhausted(Str(work(1).error)))
      && |r.db.tables.steps| == |db.tables.steps| + 1
      && var row := r.db.tables.steps[|db.tables.steps|];
         IsAttemptOf(row, runId, stepName) && row.attempt == NextAttempt(db.tables.steps, runId, stepName)
         && FinishedAs(row, work(1))
  {
    TryOnceRow(db, runId, stepName, work, 1);
    var (db1, o) := TryOnce(db, runId, stepName, work, 1);
    StepFromAfterTry(db, runId, stepName, work, settings, 1, db1, o);
  }

  /** The rows a step adds are attempts of that step, and when the step
      returned, the last of them is a succeeded one. */
  lemma StepAppends<T>(db: Db, runId: nat, stepName: string, work: nat -> Outcome<T>, settings: Settings)
    requires Consistent(db)
    ensures var r := RunStepSpec(db, runId, stepName, work, settings);
      var rows := r.db.tables.steps[|db.tables.steps|..];
      && (forall j :: 0 <= j < |rows| ==> IsAttemptOf(rows[j], runId, stepName))
      && (r.result.Success? ==> |rows| >= 1 && rows[|rows| - 1].status == StepSucceeded)
  {
    var r := RunStepSpec(db, runId, stepName, work, settings);
    var rows := r.db.tables.steps[|db.tables.steps|..];
    var first := NextAttempt(db.tables.steps, runId, stepName);
    RunStepRows(db, runId, stepName, work, settings);
    forall j | 0 <= j < |rows| ensures IsAttemptOf(rows[j], runId, stepName) {
      RecordCallsAt(rows, runId, stepName, first, work, 1, j);
    }
    if r.result.Success? {
      var policy := Some(RetryPolicy(stepName));
      RunStepMatchesRetry(db, runId, stepName, work, settings);
      RetryFromCalls(work, settings.maxStepRetries, settings.retryBackoff, policy, 1, [], []);
      RecordCallsAt(rows, runId, stepName, first, work, 1, |rows| - 1);
    }
  }

  /** For a step with no attempt row yet, the rows of its calls are
      numbered 1, 2, ... in call order. */
  lemma StepAttemptsFromOne<T>(db: Db, runId: nat, stepName: string, work: nat -> Outcome<T>, settings: Settings)
    requires Consistent(db)
    requires forall i :: 0 <= i < |db.tables.steps| ==> !IsAttemptOf(db.tables.steps[i], runId, stepName)
    ensures var r := RunStepSpec(db, runId, stepName, work, settings);
      var rows := r.db.tables.steps[|db.tables.steps|..];
      && |rows| == r.calls
      && forall j :: 0 <= j < |rows| ==> IsAttemptOf(rows[j], runId, stepName) && rows[j].attempt == j + 1
  {
    RunStepRows(db, runId, stepName, work, settings);
    NextAttemptSpec(db.tables.steps, runId, stepName);
    var r := RunStepSpec(db, runId, stepName, work, settings);
    var rows := r.db.tables.steps[|db.tables.steps|..];
    forall j | 0 <= j < |rows| ensures IsAttemptOf(rows[j], runId, stepName) && rows[j].attempt == j + 1 {
      RecordCallsAt(rows, runId, stepName, 1, work, 1, j);
    }
  }

  // ---------------------------------------------------------------------
  // PipelineRunner.run as a value

  /** The `try` block of `run`, from the run marked running on: ingest the
      records, then the rest of the block; a failed step marks the run
      failed with the counts reached so far. */
  function ExecuteSteps(db: Db, runId: nat, settings: Settings, oracles: Oracles): (db': Db)
    requires Consistent(db) && runId in db.tables.runs
    ensures runId in db'.tables.runs
  {
    var s := RunStepSpec(db, runId, Ingest, oracles.ingest, settings);
    match StepOutcome(s.result, Ingest)
    case Raised(e) => MarkFailed(s.db, runId, Str(e), 0, 0, 0)
    case Returned(ingested) => AfterIngest(s.db, runId, settings, oracles, ingested)
  }

  /** The rest of the `try` block once `total_records` is set: transform. */
  function AfterIngest(db: Db, runId: nat, settings: Settings, oracles: Oracles, ingested: seq<Record>): (db': Db)
    requires Consistent(db) && runId in db.tables.runs
    ensures runId in db'.tables.runs
  {
    var total := |ingested|;
    var s := RunStepSpec(db, runId, Transform, Always(Transformed(ingested)), settings);
    match StepOutcome(s.result, Transform)
    case Raised(e) => MarkFailed(s.db, runId, Str(e), total, 0, 0)
    case Returned(transformed) => AfterTransform(s.db, runId, settings, oracles, total, transformed)
  }

  /** The rest of the `try` block once the records are transformed: validate. */
  function AfterTransform(db: Db, runId: nat, settings: Settings, oracles: Oracles, total: int,
                          transformed: seq<Record>): (db': Db)
    requires Consistent(db) && runId in db.tables.runs
    ensures runId in db'.tables.runs
  {
    var s := RunStepSpec(db, runId, Validate, Always(Partition(transformed)), settings);
    match StepOutcome(s.result, Validate)
    case Raised(e) => MarkFailed(s.db, runId, Str(e), total, 0, 0)
    case Returned(partition) => AfterValidate(s.db, runId, settings, oracles, total, partition.0, partition.1)
  }

  /** The rest of the `try` block once the records are split: publish the
      report, then store the results. */
  function AfterValidate(db: Db, runId: nat, settings: Settings, oracles: Oracles, total: int,
                         valid: seq<ValidRecord>, invalid: seq<InvalidRecord>): (db': Db)
    requires Consistent(db) && runId in db.tables.runs
    ensures runId in db'.tables.runs
  {
    var s := RunStepSpec(db, runId, PublishReport, oracles.publishOutputs, settings);
    match StepOutcome(s.result, PublishReport)
    case Raised(e) => MarkFailed(s.db, runId, Str(e), total, |valid|, |invalid|)
    case Returned(_) => StoreResults(s.db, runId, total, valid, invalid)
  }

  /** The end of the `try` block of `run`: the published records, the dead
      letters, and the run marked succeeded; a refused commit of the
      published records marks it failed instead. */
  function StoreResults(db: Db, runId: nat, total: int, valid: seq<ValidRecord>, invalid: seq<InvalidRecord>): (db': Db)
    requires Consistent(db) && runId in db.tables.runs
    ensures runId in db'.tables.runs
  {
    StorePublishedSpec(db, runId, valid);
    var (db5, stored) := StorePublished(db, runId, valid);
    match stored
    case Raised(e5) => MarkFailed(db5, runId, Str(e5), total, |valid|, |invalid|)
    case Returned(_) =>
      StoreDeadLettersSpec(db5, runId, invalid);
      var db6 := StoreDeadLetterRows(db5, runId, invalid);
      MarkSucceeded(db6, runId, total, |valid|, |invalid|)
  }

  /** Whether `run` goes on to execute the steps for `runKey`: the key is
      new, or its run failed. */
  predicate WillExecute(db: Db, runKey: string)
    requires Consistent(db)
  {
    !HasRunKey(db.tables, runKey) || RunByKey(db.tables, runKey).value.status == Failed
  }

  /** The run as the steps find it: inserted just now, or reset from its
      failed state; then marked running. */
  function StartRun(db: Db, runId: nat, created: bool): (db': Db)
    requires Consistent(db) && runId in db.tables.runs
    ensures runId in db'.tables.runs
  {
    ResetSpec(db, runId);
    var db1 := if created then db else Reset(db, runId);
    MarkRunning(db1, runId)
  }

  /** `PipelineRunner.run`: the ledger after the call and the result. */
  function Execute(db: Db, settings: Settings, oracles: Oracles, runDate: Date, runKey: string, triggerSource: string)
    : (Db, PipelineResult)
    requires Consistent(db)
  {
    CreateOrGetSpec(db, runKey, runDate, triggerSource);
    var (db1, run, created) := CreateOrGet(db, runKey, runDate, triggerSource);
    var reportPath := ReportPath(settings.outputDir, runKey);
    if !created && run.status != Failed then
      (db1, ResultFromRun(run, reportPath, true))
    else
      StartRunSpec(db1, run.id, created);
      var db2 := ExecuteSteps(StartRun(db1, run.id, created), run.id, settings, oracles);
      (db2, ResultFromRun(db2.tables.runs[run.id], reportPath, false))
  }

  /** Starting a run changes only its row and, for a reset run, removes its
      child rows: the run is running, under the same id, key, date and
      trigger, with no attempt row of its own left when it was reset. */
  lemma StartRunSpec(db: Db, runId: nat, created: bool)
    requires Consistent(db) && runId in db.tables.runs
    ensures var db' := StartRun(db, runId, created);
      && Consistent(db')
      && SameRunsBut(db, db', runId)
      && db'.tables.runs[runId].status == Running
      && db'.tables.runs[runId].error == None
      && (created ==> db'.tables.steps == db.tables.steps)
      && (created ==> db'.tables.deadLetters == db.tables.deadLetters && db'.tables.published == db.tables.published)
      && (!created ==> forall i :: 0 <= i < |db'.tables.steps| ==> db'.tables.steps[i].runId != runId)
      && (!created ==>
            var u := WithoutChildrenOf(db.tables, runId);
            db'.tables.steps == u.steps && db'.tables.deadLetters == u.deadLetters && db'.tables.published == u.published)
  {
    ResetSpec(db, runId);
    var db1 := if created then db else Reset(db, runId);
    MarkRunningSpec(db1, runId);
    if !created {
      forall i | 0 <= i < |db1.tables.steps| ensures db1.tables.steps[i].runId != runId {
        assert db1.tables.steps[i] in db1.tables.steps;
      }
    }
  }

  // ---------------------------------------------------------------------
  // What a run leaves in the ledger

  /** Every other run as before, and run `runId` still there under the same
      id, key, date and trigger. */
  predicate SameRunsBut(db: Db, db': Db, runId: nat)
    requires runId in db.tables.runs
  {
    && db'.tables.runs.Keys == db.tables.runs.Keys
    && (forall id :: id in db.tables.runs && id != runId ==> db'.tables.runs[id] == db.tables.runs[id])
    && var r, r' := db.tables.runs[runId], db'.tables.runs[runId];
       r'.id == r.id && r'.runKey == r.runKey && r'.runDate == r.runDate && r'.triggerSource == r.triggerSource
  }

  /** How the `try` block leaves run `runId`: succeeded with no error and
      its total split into valid and invalid records, or failed with an
      error; every other run as before, and the constraints kept. */
  predicate RunEnded(db: Db, db': Db, runId: nat)
    requires runId in db.tables.runs
  {
    && Consistent(db')
    && SameRunsBut(db, db', runId)
    && var r := db'.tables.runs[runId];
       && (r.status == Succeeded || r.status == Failed)
       && (r.status == Succeeded ==> r.error == None && r.totalRecords == r.validRecords + r.invalidRecords)
       && (r.status == Failed ==> r.error.Some?)
  }

  lemma FailedEnds(db: Db, db1: Db, runId: nat, error: string, total: int, valid: int, invalid: int)
    requires Consistent(db1) && runId in db.tables.runs && db1.tables.runs == db.tables.runs
    ensures RunEnded(db, MarkFailed(db1, runId, error, total, valid, invalid), runId)
  {
    MarkFailedSpec(db1, runId, error, total, valid, invalid);
  }

  /** Whatever the steps do, the run ends succeeded or failed: the `try`
      block never leaves it running. */
  lemma ExecuteStepsEnds(db: Db, runId: nat, settings: Settings, oracles: Oracles)
    requires Consistent(db) && runId in db.tables.runs
    ensures RunEnded(db, ExecuteSteps(db, runId, settings, oracles), runId)
  {
    var s := RunStepSpec(db, runId, Ingest, oracles.ingest, settings);
    match StepOutcome(s.result, Ingest)
    case Raised(e) => FailedEnds(db, s.db, runId, Str(e), 0, 0, 0);
    case Returned(ingested) => AfterIngestEnds(s.db, runId, settings, oracles, ingested);
  }

  lemma AfterIngestEnds(db: Db, runId: nat, settings: Settings, oracles: Oracles, ingested: seq<Record>)
    requires Consistent(db) && runId in db.tables.runs
    ensures RunEnded(db, AfterIngest(db, runId, settings, oracles, ingested), runId)
  {
    var total := |ingested|;
    var s := RunStepSpec(db, runId, Transform, Always(Transformed(ingested)), settings);
    match StepOutcome(s.result, Transform)
    case Raised(e) => FailedEnds(db, s.db, runId, Str(e), total, 0, 0);
    case Returned(transformed) =>
      StepEndsAtFirstTry(db, runId, Transform, Always(Transformed(ingested)), settings);
      TransformedSpec(ingested);
      AfterTransformEnds(s.db, runId, settings, oracles, total, transformed);
  }

  lemma AfterTransformEnds(db: Db, runId: nat, settings: Settings, oracles: Oracles, total: int, transformed: seq<Record>)
    requires Consistent(db) && runId in db.tables.runs && total == |transformed|
    ensures RunEnded(db, AfterTransform(db, runId, settings, oracles, total, transformed), runId)
  {
    var s := RunStepSpec(db, runId, Validate, Always(Partition(transformed)), settings);
    match StepOutcome(s.result, Validate)
    case Raised(e) => FailedEnds(db, s.db, runId, Str(e), total, 0, 0);
    case Returned(partition) =>
      StepEndsAtFirstTry(db, runId, Validate, Always(Partition(transformed)), settings);
      PartitionSizes(transformed);
      AfterValidateEnds(s.db, runId, settings, oracles, total, partition.0, partition.1);
  }

  lemma AfterValidateEnds(db: Db, runId: nat, settings: Settings, oracles: Oracles, total: int,
                          valid: seq<ValidRecord>, invalid: seq<InvalidRecord>)
    requires Consistent(db) && runId in db.tables.runs && total == |valid| + |invalid|
    ensures RunEnded(db, AfterValidate(db, runId, settings, oracles, total, valid, invalid), runId)
  {
    var s := RunStepSpec(db, runId, PublishReport, oracles.publishOutputs, settings);
    match StepOutcome(s.result, PublishReport)
    case Raised(e) => FailedEnds(db, s.db, runId, Str(e), total, |valid|, |invalid|);
    case Returned(_) => StoreResultsEnds(s.db, runId, total, valid, invalid);
  }

  /** Storing the results adds no attempt row, and stores the counts
      whichever way the commit of the published records goes. */
  lemma StoreResultsKeeps(db: Db, runId: nat, total: int, valid: seq<ValidRecord>, invalid: seq<InvalidRecord>)
    requires Consistent(db) && runId in db.tables.runs
    ensures StoreResults(db, runId, total, valid, invalid).tables.steps == db.tables.steps
    ensures var r := StoreResults(db, runId, total, valid, invalid).tables.runs[runId];
      r.totalRecords == total && r.validRecords == |valid| && r.invalidRecords == |invalid|
  {
    StorePublishedSpec(db, runId, valid);
    var (db5, stored) := StorePublished(db, runId, valid);
    match stored
    case Raised(e5) =>
      MarkFailedSpec(db5, runId, Str(e5), total, |valid|, |invalid|);
    case Returned(_) =>
      StoreDeadLettersSpec(db5, runId, invalid);
      var db6 := StoreDeadLetterRows(db5, runId, invalid);
      MarkSucceededSpec(db6, runId, total, |valid|, |invalid|);
  }

  /** Storing the results ends the run succeeded with no error, or failed
      with the commit's error; nothing else about the runs changes. */
  lemma StoreResultsEnds(db: Db, runId: nat, total: int, valid: seq<ValidRecord>, invalid: seq<InvalidRecord>)
    requires Consistent(db) && runId in db.tables.runs
    requires total == |valid| + |invalid|
    ensures RunEnded(db, StoreResults(db, runId, total, valid, invalid), runId)
  {
    StorePublishedSpec(db, runId, valid);
    var (db5, stored) := StorePublished(db, runId, valid);
    match stored
    case Raised(e5) =>
      MarkFailedSpec(db5, runId, Str(e5), total, |valid|, |invalid|);
    case Returned(_) =>
      StoreDeadLettersSpec(db5, runId, invalid);
      var db6 := StoreDeadLetterRows(db5, runId, invalid);
      MarkSucceededSpec(db6, runId, total, |valid|, |invalid|);
  }

  // ---------------------------------------------------------------------
  // A refused commit of the published records, as the program has it

  /** What a session says when it is asked to commit after a flush that
      failed and was never rolled back (`PendingRollbackError`), without the
      "Original exception was: ..." text SQLAlchemy appends to it. */
  const PendingRollback := Other("This Session's transaction has been rolled back due to a previous exception during flush. To begin a new transaction with this Session, first issue Session.rollback().")

  /** The end of the `try` block as the program has it, with one session for
      the whole run: when the commit of the published records is refused,
      nothing rolls the session back, so the commit inside `mark_run_failed`
      raises `PendingRollbackError` and `run` propagates it. The ledger keeps
      what was committed before, the run still `running`. */
  function StoreResultsAsWritten(db: Db, runId: nat, total: int, valid: seq<ValidRecord>, invalid: seq<InvalidRecord>)
    : (r: (Db, Outcome<()>))
    requires Consistent(db) && runId in db.tables.runs
    ensures runId in r.0.tables.runs
    ensures r.1.Raised? ==> r.0 == db && r.1.error == PendingRollback
  {
    StorePublishedSpec(db, runId, valid);
    var (db5, stored) := StorePublished(db, runId, valid);
    match stored
    case Raised(_) => (db5, Raised(PendingRollback))
    case Returned(_) =>
      StoreDeadLettersSpec(db5, runId, invalid);
      var db6 := StoreDeadLetterRows(db5, runId, invalid);
      (MarkSucceeded(db6, runId, total, |valid|, |invalid|), Returned(()))
  }

  /** Two valid records with the same new key. As written, `run` raises and
      leaves the run `running`, so every later call for its key reuses it and
      never runs the steps again. With the session rolled back first, the run
      is marked failed with the commit's error and the next call retries it. */
  lemma RefusedCommitStrandsRun(db: Db, runId: nat, total: int, valid: seq<ValidRecord>, invalid: seq<InvalidRecord>,
                                i: nat, j: nat, settings: Settings, oracles: Oracles, runDate: Date, triggerSource: string)
    requires Consistent(db) && runId in db.tables.runs && db.tables.runs[runId].status == Running
    requires i < j < |valid| && valid[i].recordKey == valid[j].recordKey
    requires valid[i].recordKey !in ExistingKeys(db.tables.published, runId)
    ensures var runKey := db.tables.runs[runId].runKey;
      var (db', out) := StoreResultsAsWritten(db, runId, total, valid, invalid);
      && db' == db && out == Raised(PendingRollback)
      && db'.tables.runs[runId].status == Running
      && !WillExecute(db', runKey)
      && var (db'', res) := Execute(db', settings, oracles, runDate, runKey, triggerSource);
         db''.tables == db'.tables && res.runId == runId && res.status == Running && res.reusedExistingRun
    ensures var runKey := db.tables.runs[runId].runKey;
      var db' := StoreResults(db, runId, total, valid, invalid);
      && Consistent(db')
      && db'.tables.runs[runId].status == Failed
      && db'.tables.runs[runId].error == Some(Str(PublishedKeyConflict))
      && WillExecute(db', runKey)
  {
    var runKey := db.tables.runs[runId].runKey;
    DuplicateKeysInBatchFail(db, runId, valid, i, j);
    var found := RunByKey(db.tables, runKey);
    assert found.value.id == runId;
    ExecuteReuses(db, settings, oracles, runDate, runKey, triggerSource);
    var db' := StoreResults(db, runId, total, valid, invalid);
    MarkFailedSpec(db, runId, Str(PublishedKeyConflict), total, |valid|, |invalid|);
    assert db'.tables.runs[runId].runKey == runKey;
    var found' := RunByKey(db'.tables, runKey);
    assert found'.value.id == runId;
  }

  // ---------------------------------------------------------------------
  // The order of the steps

  /** The steps of `run`, in the order it runs them. */
  const StepOrder: seq<string> := [Ingest, Transform, Validate, PublishReport]

  /** The position of a step in that order; any other name comes after. */
  function Rank(stepName: string): (n: nat)
    ensures n <= |StepOrder|
    ensures n < |StepOrder| ==> StepOrder[n] == stepName
  {
    if stepName == Ingest then 0
    else if stepName == Transform then 1
    else if stepName == Validate then 2
    else if stepName == PublishReport then 3
    else 4
  }

  lemma RankOfOrder(r: nat)
    requires r < |StepOrder|
    ensures Rank(StepOrder[r]) == r
  {
  }

  /** Attempt rows as `run` adds them from step `from` of the order on:
      they start with step `from`, hold only steps of the order, and each
      row is of the same step as the row before it or of the next step,
      the row before it then being a succeeded one. */
  predicate InStepOrder(rows: seq<StepRun>, from: nat) {
    && (rows != [] ==> Rank(rows[0].stepName) == from)
    && (forall j :: 0 <= j < |rows| ==> Rank(rows[j].stepName) < |StepOrder|)
    && (forall j :: 0 < j < |rows| ==>
          || Rank(rows[j].stepName) == Rank(rows[j - 1].stepName)
          || (Rank(rows[j].stepName) == Rank(rows[j - 1].stepName) + 1 && rows[j - 1].status == StepSucceeded))
  }

  /** No row of a step comes after a row of a later step. */
  lemma {:induction false} InStepOrderSorted(rows: seq<StepRun>, from: nat)
    requires InStepOrder(rows, from)
    ensures forall i, j :: 0 <= i < j < |rows| ==> Rank(rows[i].stepName) <= Rank(rows[j].stepName)
    decreases |rows|
  {
    if |rows| > 1 {
      var n := |rows| - 1;
      var init := rows[..n];
      assert forall j :: 0 <= j < n ==> init[j] == rows[j];
      InStepOrderSorted(init, from);
      forall i, j | 0 <= i < j < |rows| ensures Rank(rows[i].stepName) <= Rank(rows[j].stepName) {
        if j == n && i < n - 1 {
          assert Rank(init[i].stepName) <= Rank(init[n - 1].stepName);
        }
      }
    }
  }

  /** A row of a step past `from` comes after a succeeded row of the step
      before it: a step starts only once the one before it succeeded. */
  lemma InStepOrderGated(rows: seq<StepRun>, from: nat)
    requires InStepOrder(rows, from)
    ensures forall j :: 0 <= j < |rows| && Rank(rows[j].stepName) > from ==>
      exists i :: 0 <= i < j && Rank(rows[i].stepName) == Rank(rows[j].stepName) - 1 && rows[i].status == StepSucceeded
  {
    forall j | 0 <= j < |rows| && Rank(rows[j].stepName) > from
      ensures exists i :: 0 <= i < j && Rank(rows[i].stepName) == Rank(rows[j].stepName) - 1 && rows[i].status == StepSucceeded
    {
      GatedAt(rows, from, j);
    }
  }

  lemma {:induction false} GatedAt(rows: seq<StepRun>, from: nat, j: nat)
    requires InStepOrder(rows, from) && j < |rows| && Rank(rows[j].stepName) > from
    ensures exists i :: 0 <= i < j && Rank(rows[i].stepName) == Rank(rows[j].stepName) - 1 && rows[i].status == StepSucceeded
    decreases j
  {
    if Rank(rows[j].stepName) == Rank(rows[j - 1].stepName) {
      GatedAt(rows, from, j - 1);
    } else {
      assert Rank(rows[j - 1].stepName) == Rank(rows[j].stepName) - 1 && rows[j - 1].status == StepSucceeded;
    }
  }

  /** The rows of step `r` followed by rows in order from step `r + 1`,
      which come only once step `r` has succeeded, are in order from `r`. */
  lemma OrderAppend(a: seq<StepRun>, b: seq<StepRun>, r: nat)
    requires r < |StepOrder|
    requires forall j :: 0 <= j < |a| ==> Rank(a[j].stepName) == r
    requires b != [] ==> a != [] && a[|a| - 1].status == StepSucceeded
    requires InStepOrder(b, r + 1)
    ensures InStepOrder(a + b, r)
  {
    var c := a + b;
    forall j | 0 < j < |c|
      ensures || Rank(c[j].stepName) == Rank(c[j - 1].stepName)
              || (Rank(c[j].stepName) == Rank(c[j - 1].stepName) + 1 && c[j - 1].status == StepSucceeded)
    {
      if j > |a| {
        assert c[j] == b[j - |a|] && c[j - 1] == b[j - |a| - 1];
      } else if j == |a| {
        assert c[j] == b[0] && c[j - 1] == a[|a| - 1];
      }
    }
  }

  /** `db'` holds the attempt rows of `db` and possibly more after them. */
  predicate StepsExtended(db: Db, db': Db) {
    |db.tables.steps| <= |db'.tables.steps| && db'.tables.steps[..|db.tables.steps|] == db.tables.steps
  }

  /** The attempt rows added from `db` to `db'`. */
  function NewSteps(db: Db, db': Db): seq<StepRun>
    requires StepsExtended(db, db')
  {
    db'.tables.steps[|db.tables.steps|..]
  }

  lemma StepsExtendedTrans(db: Db, db1: Db, db2: Db)
    requires StepsExtended(db, db1) && StepsExtended(db1, db2)
    ensures StepsExtended(db, db2)
    ensures NewSteps(db, db2) == NewSteps(db, db1) + NewSteps(db1, db2)
  {
    assert db2.tables.steps[..|db.tables.steps|] == db2.tables.steps[..|db1.tables.steps|][..|db.tables.steps|];
    assert db2.tables.steps[|db.tables.steps|..|db1.tables.steps|] == db1.tables.steps[|db.tables.steps|..];
    assert db2.tables.steps[|db.tables.steps|..]
        == db2.tables.steps[|db.tables.steps|..|db1.tables.steps|] + db2.tables.steps[|db1.tables.steps|..];
  }

  /** Every row of `rows` is an attempt of run `runId`. */
  predicate AllOfRun(rows: seq<StepRun>, runId: nat) {
    forall j :: 0 <= j < |rows| ==> rows[j].runId == runId
  }

  /** The rows added from `db` to `db1` are attempts of run `runId`, all
      of step `r` of the order. */
  predicate StageAdded(db: Db, db1: Db, runId: nat, r: nat) {
    && StepsExtended(db, db1)
    && AllOfRun(NewSteps(db, db1), runId)
    && forall j :: 0 <= j < |NewSteps(db, db1)| ==> Rank(NewSteps(db, db1)[j].stepName) == r
  }

  /** Rows were added from `db` to `db1`, and the last of them succeeded. */
  predicate LastSucceeded(db: Db, db1: Db) {
    && StepsExtended(db, db1)
    && NewSteps(db, db1) != []
    && NewSteps(db, db1)[|NewSteps(db, db1)| - 1].status == StepSucceeded
  }

  /** The rows added from `db` to `db'` are attempts of run `runId` in
      step order from step `r`. */
  predicate OrderedFrom(db: Db, db': Db, runId: nat, r: nat) {
    StepsExtended(db, db') && AllOfRun(NewSteps(db, db'), runId) && InStepOrder(NewSteps(db, db'), r)
  }

  /** The rows a step adds are its own, all of one step of the order, and
      when the step returned the last of them succeeded. */
  lemma StageRows<T>(db: Db, runId: nat, stepName: string, work: nat -> Outcome<T>, settings: Settings)
    requires Consistent(db) && Rank(stepName) < |StepOrder|
    ensures var s := RunStepSpec(db, runId, stepName, work, settings);
      StageAdded(db, s.db, runId, Rank(stepName)) && (s.result.Success? ==> LastSucceeded(db, s.db))
  {
    StepAppends(db, runId, stepName, work, settings);
  }

  /** Publishing the report is the last step to add attempt rows. */
  lemma AfterValidateSteps(db: Db, runId: nat, settings: Settings, oracles: Oracles, total: int,
                           valid: seq<ValidRecord>, invalid: seq<InvalidRecord>)
    requires Consistent(db) && runId in db.tables.runs
    ensures AfterValidate(db, runId, settings, oracles, total, valid, invalid).tables.steps
         == RunStepSpec(db, runId, PublishReport, oracles.publishOutputs, settings).db.tables.steps
  {
    var s := RunStepSpec(db, runId, PublishReport, oracles.publishOutputs, settings);
    match StepOutcome(s.result, PublishReport)
    case Raised(e) => MarkFailedSpec(s.db, runId, Str(e), total, |valid|, |invalid|);
    case Returned(_) => StoreResultsKeeps(s.db, runId, total, valid, invalid);
  }

  /** Rows of step `r` followed either by nothing (the step failed and the
      run was marked failed) or by rows in order from step `r + 1` after a
      succeeded row of step `r` are in order from step `r`. */
  lemma OrderStage(db: Db, db1: Db, db': Db, runId: nat, r: nat, failed: bool)
    requires r < |StepOrder| && StageAdded(db, db1, runId, r)
    requires failed ==> db'.tables.steps == db1.tables.steps
    requires !failed ==> LastSucceeded(db, db1) && OrderedFrom(db1, db', runId, r + 1)
    ensures OrderedFrom(db, db', runId, r)
  {
    var a := NewSteps(db, db1);
    if failed {
      OrderAppend(a, [], r);
      assert a + [] == a;
    } else {
      StepsExtendedTrans(db, db1, db');
      OrderAppend(a, NewSteps(db1, db'), r);
    }
  }

  lemma AfterValidateOrder(db: Db, runId: nat, settings: Settings, oracles: Oracles, total: int,
                           valid: seq<ValidRecord>, invalid: seq<InvalidRecord>)
    requires Consistent(db) && runId in db.tables.runs
    ensures OrderedFrom(db, AfterValidate(db, runId, settings, oracles, total, valid, invalid), runId, 3)
  {
    var s := RunStepSpec(db, runId, PublishReport, oracles.publishOutputs, settings);
    StageRows(db, runId, PublishReport, oracles.publishOutputs, settings);
    AfterValidateSteps(db, runId, settings, oracles, total, valid, invalid);
    OrderStage(db, s.db, AfterValidate(db, runId, settings, oracles, total, valid, invalid), runId, 3, true);
  }

  lemma AfterTransformOrder(db: Db, runId: nat, settings: Settings, oracles: Oracles, total: int, transformed: seq<Record>)
    requires Consistent(db) && runId in db.tables.runs
    ensures OrderedFrom(db, AfterTransform(db, runId, settings, oracles, total, transformed), runId, 2)
  {
    var s := RunStepSpec(db, runId, Validate, Always(Partition(transformed)), settings);
    StageRows(db, runId, Validate, Always(Partition(transformed)), settings);
    var o := StepOutcome(s.result, Validate);
    var db' := AfterTransform(db, runId, settings, oracles, total, transformed);
    if o.Raised? {
      assert db' == MarkFailed(s.db, runId, Str(o.error), total, 0, 0);
      MarkFailedSpec(s.db, runId, Str(o.error), total, 0, 0);
    } else {
      assert s.result.Success?;
      var (valid, invalid) := o.value;
      assert db' == AfterValidate(s.db, runId, settings, oracles, total, valid, invalid);
      AfterValidateOrder(s.db, runId, settings, oracles, total, valid, invalid);
    }
    OrderStage(db, s.db, db', runId, 2, o.Raised?);
  }

  lemma AfterIngestOrder(db: Db, runId: nat, settings: Settings, oracles: Oracles, ingested: seq<Record>)
    requires Consistent(db) && runId in db.tables.runs
    ensures OrderedFrom(db, AfterIngest(db, runId, settings, oracles, ingested), runId, 1)
  {
    var s := RunStepSpec(db, runId, Transform, Always(Transformed(ingested)), settings);
    StageRows(db, runId, Transform, Always(Transformed(ingested)), settings);
    var o := StepOutcome(s.result, Transform);
    var db' := AfterIngest(db, runId, settings, oracles, ingested);
    if o.Raised? {
      assert db' == MarkFailed(s.db, runId, Str(o.error), |ingested|, 0, 0);
      MarkFailedSpec(s.db, runId, Str(o.error), |ingested|, 0, 0);
    } else {
      assert s.result.Success?;
      assert db' == AfterTransform(s.db, runId, settings, oracles, |ingested|, o.value);
      AfterTransformOrder(s.db, runId, settings, oracles, |ingested|, o.value);
    }
    OrderStage(db, s.db, db', runId, 1, o.Raised?);
  }

  /** The `try` block adds attempt rows of its own run only, step by step
      in the order ingest, transform, validate, publish_report, each step
      only after the one before it succeeded. */
  lemma ExecuteStepsOrder(db: Db, runId: nat, settings: Settings, oracles: Oracles)
    requires Consistent(db) && runId in db.tables.runs
    ensures OrderedFrom(db, ExecuteSteps(db, runId, settings, oracles), runId, 0)
  {
    var s := RunStepSpec(db, runId, Ingest, oracles.ingest, settings);
    StageRows(db, runId, Ingest, oracles.ingest, settings);
    var o := StepOutcome(s.result, Ingest);
    var db' := ExecuteSteps(db, runId, settings, oracles);
    if o.Raised? {
      assert db' == MarkFailed(s.db, runId, Str(o.error), 0, 0, 0);
      MarkFailedSpec(s.db, runId, Str(o.error), 0, 0, 0);
    } else {
      assert s.result.Success?;
      assert db' == AfterIngest(s.db, runId, settings, oracles, o.value);
      AfterIngestOrder(s.db, runId, settings, oracles, o.value);
    }
    OrderStage(db, s.db, db', runId, 0, o.Raised?);
  }

  // ---------------------------------------------------------------------
  // Runs whose steps end at their first call

  /** No attempt row of run `runId` is of step `from` of the order or a
      later one; with `from` zero, the run has no attempt row at all. */
  predicate NoAttemptsFrom(steps: seq<StepRun>, runId: nat, from: nat) {
    forall i :: 0 <= i < |steps| && steps[i].runId == runId ==> Rank(steps[i].stepName) < from
  }

  /** `row` is the first attempt of step `n` of the order, made by run
      `runId`, and it succeeded. */
  predicate FirstTryAt(row: StepRun, runId: nat, n: nat) {
    && n < |StepOrder|
    && row.runId == runId && row.stepName == StepOrder[n]
    && row.attempt == 1 && row.status == StepSucceeded
  }

  /** Row `j` of `rows` is the first attempt of step `from + j` of the
      order, made by run `runId`, and it succeeded. */
  predicate FirstTries(rows: seq<StepRun>, runId: nat, from: nat) {
    forall j :: 0 <= j < |rows| ==> FirstTryAt(rows[j], runId, from + j)
  }

  lemma FirstTriesAppend(a: seq<StepRun>, b: seq<StepRun>, runId: nat, r: nat, next: nat)
    requires next == r + 1
    requires |a| == 1 && FirstTries(a, runId, r) && FirstTries(b, runId, next)
    ensures FirstTries(a + b, runId, r)
  {
    var c := a + b;
    forall j | 0 <= j < |c| ensures FirstTryAt(c[j], runId, r + j) {
      if j == 0 {
        assert c[j] == a[0];
      } else {
        assert c[j] == b[j - 1] && FirstTryAt(b[j - 1], runId, next + (j - 1));
      }
    }
  }

  /** A step whose first call returns, for a run with no attempt of that
      step or a later one, adds one row: its first attempt, succeeded. */
  lemma StageFirstTry<T>(db: Db, runId: nat, stepName: string, work: nat -> Outcome<T>, settings: Settings)
    requires Consistent(db) && settings.maxStepRetries >= 0 && Rank(stepName) < |StepOrder|
    requires work(1).Returned? && NoAttemptsFrom(db.tables.steps, runId, Rank(stepName))
    ensures var s := RunStepSpec(db, runId, stepName, work, settings);
      && s.result == Success(work(1).value)
      && StepsExtended(db, s.db)
      && |NewSteps(db, s.db)| == 1 && FirstTries(NewSteps(db, s.db), runId, Rank(stepName))
      && NoAttemptsFrom(s.db.tables.steps, runId, Rank(stepName) + 1)
  {
    StepEndsAtFirstTry(db, runId, stepName, work, settings);
    NextAttemptSpec(db.tables.steps, runId, stepName);
    var s := RunStepSpec(db, runId, stepName, work, settings);
    var n := |db.tables.steps|;
    assert NewSteps(db, s.db) == [s.db.tables.steps[n]];
    forall i | 0 <= i < |s.db.tables.steps| && s.db.tables.steps[i].runId == runId
      ensures Rank(s.db.tables.steps[i].stepName) < Rank(stepName) + 1
    {
      if i < n {
        assert s.db.tables.steps[i] == s.db.tables.steps[..n][i];
      }
    }
  }

  lemma AfterValidateFirstTry(db: Db, runId: nat, settings: Settings, oracles: Oracles, total: int,
                              valid: seq<ValidRecord>, invalid: seq<InvalidRecord>)
    requires Consistent(db) && runId in db.tables.runs && settings.maxStepRetries >= 0
    requires oracles.publishOutputs(1).Returned? && NoAttemptsFrom(db.tables.steps, runId, 3)
    ensures var db' := AfterValidate(db, runId, settings, oracles, total, valid, invalid);
      && StepsExtended(db, db') && |NewSteps(db, db')| == 1 && FirstTries(NewSteps(db, db'), runId, 3)
      && db'.tables.runs[runId].totalRecords == total
      && db'.tables.runs[runId].validRecords == |valid| && db'.tables.runs[runId].invalidRecords == |invalid|
  {
    var s := RunStepSpec(db, runId, PublishReport, oracles.publishOutputs, settings);
    StageFirstTry(db, runId, PublishReport, oracles.publishOutputs, settings);
    StoreResultsKeeps(s.db, runId, total, valid, invalid);
    assert AfterValidate(db, runId, settings, oracles, total, valid, invalid) == StoreResults(s.db, runId, total, valid, invalid);
  }

  lemma AfterTransformFirstTry(db: Db, runId: nat, settings: Settings, oracles: Oracles, total: int, transformed: seq<Record>)
    requires Consistent(db) && runId in db.tables.runs && settings.maxStepRetries >= 0
    requires oracles.publishOutputs(1).Returned? && NoAttemptsFrom(db.tables.steps, runId, 2)
    ensures var db' := AfterTransform(db, runId, settings, oracles, total, transformed);
      && StepsExtended(db, db') && |NewSteps(db, db')| == 2 && FirstTries(NewSteps(db, db'), runId, 2)
      && db'.tables.runs[runId].totalRecords == total
      && db'.tables.runs[runId].validRecords == |Partition(transformed).0|
      && db'.tables.runs[runId].invalidRecords == |Partition(transformed).1|
  {
    var (valid, invalid) := Partition(transformed);
    var s := RunStepSpec(db, runId, Validate, Always((valid, invalid)), settings);
    StageFirstTry(db, runId, Validate, Always((valid, invalid)), settings);
    var db' := AfterTransform(db, runId, settings, oracles, total, transformed);
    assert db' == AfterValidate(s.db, runId, settings, oracles, total, valid, invalid);
    AfterValidateFirstTry(s.db, runId, settings, oracles, total, valid, invalid);
    StepsExtendedTrans(db, s.db, db');
    FirstTriesAppend(NewSteps(db, s.db), NewSteps(s.db, db'), runId, 2, 3);
  }

  lemma AfterIngestFirstTry(db: Db, runId: nat, settings: Settings, oracles: Oracles, ingested: seq<Record>)
    requires Consistent(db) && runId in db.tables.runs && settings.maxStepRetries >= 0
    requires oracles.publishOutputs(1).Returned? && NoAttemptsFrom(db.tables.steps, runId, 1)
    ensures var db' := AfterIngest(db, runId, settings, oracles, ingested);
      && StepsExtended(db, db') && |NewSteps(db, db')| == 3 && FirstTries(NewSteps(db, db'), runId, 1)
      && db'.tables.runs[runId].totalRecords == |ingested|
      && db'.tables.runs[runId].validRecords == |Partition(Transformed(ingested)).0|
      && db'.tables.runs[runId].invalidRecords == |Partition(Transformed(ingested)).1|
  {
    var transformed := Transformed(ingested);
    var s := RunStepSpec(db, runId, Transform, Always(transformed), settings);
    StageFirstTry(db, runId, Transform, Always(transformed), settings);
    var db' := AfterIngest(db, runId, settings, oracles, ingested);
    assert db' == AfterTransform(s.db, runId, settings, oracles, |ingested|, transformed);
    AfterTransformFirstTry(s.db, runId, settings, oracles, |ingested|, transformed);
    StepsExtendedTrans(db, s.db, db');
    FirstTriesAppend(NewSteps(db, s.db), NewSteps(s.db, db'), runId, 1, 2);
  }

  /** When ingest and the report return at their first call, the `try`
      block adds exactly one row per step, in order, each a succeeded first
      attempt, and stores the counts of the ingested records. */
  lemma ExecuteStepsFirstTry(db: Db, runId: nat, settings: Settings, oracles: Oracles)
    requires Consistent(db) && runId in db.tables.runs && settings.maxStepRetries >= 0
    requires oracles.ingest(1).Returned? && oracles.publishOutputs(1).Returned?
    requires NoAttemptsFrom(db.tables.steps, runId, 0)
    ensures var db' := ExecuteSteps(db, runId, settings, oracles);
      var ingested := oracles.ingest(1).value;
      && StepsExtended(db, db') && |NewSteps(db, db')| == |StepOrder| && FirstTries(NewSteps(db, db'), runId, 0)
      && db'.tables.runs[runId].totalRecords == |ingested|
      && db'.tables.runs[runId].validRecords == |Partition(Transformed(ingested)).0|
      && db'.tables.runs[runId].invalidRecords == |Partition(Transformed(ingested)).1|
  {
    var s := RunStepSpec(db, runId, Ingest, oracles.ingest, settings);
    StageFirstTry(db, runId, Ingest, oracles.ingest, settings);
    var db' := ExecuteSteps(db, runId, settings, oracles);
    assert db' == AfterIngest(s.db, runId, settings, oracles, oracles.ingest(1).value);
    AfterIngestFirstTry(s.db, runId, settings, oracles, oracles.ingest(1).value);
    StepsExtendedTrans(db, s.db, db');
    FirstTriesAppend(NewSteps(db, s.db), NewSteps(s.db, db'), runId, 0, 1);
  }

  /** A step whose first call raises an error its policy does not retry,
      for a run with no attempt row yet, adds one row: its first attempt,
      failed with that error. */
  lemma StageRefused<T>(db: Db, runId: nat, stepName: string, work: nat -> Outcome<T>, settings: Settings)
    requires Consistent(db) && settings.maxStepRetries >= 0
    requires work(1).Raised? && !IsRetryable(stepName, work(1).error)
    requires NoAttemptsFrom(db.tables.steps, runId, 0)
    ensures var s := RunStepSpec(db, runId, stepName, work, settings);
      && s.result == Exhausted(Str(work(1).error))
      && StepsExtended(db, s.db) && |NewSteps(db, s.db)| == 1 && AllOfRun(NewSteps(db, s.db), runId)
      && (var row := NewSteps(db, s.db)[0];
          row.stepName == stepName && row.attempt == 1
          && row.status == StepFailed && row.error == Some(Str(work(1).error)))
  {
    StepEndsAtFirstTry(db, runId, stepName, work, settings);
    NextAttemptSpec(db.tables.steps, runId, stepName);
    var s := RunStepSpec(db, runId, stepName, work, settings);
    assert NewSteps(db, s.db) == [s.db.tables.steps[|db.tables.steps|]];
  }

  /** An ingest whose first call fails with a missing or malformed input,
      for a run with no attempt row yet, is tried once: one failed ingest
      attempt, and the run failed with the step's message and zero counts. */
  lemma ExecuteStepsRefusedIngest(db: Db, runId: nat, settings: Settings, oracles: Oracles)
    requires Consistent(db) && runId in db.tables.runs && settings.maxStepRetries >= 0
    requires oracles.ingest(1).Raised? && !IsRetryable(Ingest, oracles.ingest(1).error)
    requires NoAttemptsFrom(db.tables.steps, runId, 0)
    ensures var db' := ExecuteSteps(db, runId, settings, oracles);
      var e := oracles.ingest(1).error;
      && StepsExtended(db, db') && |NewSteps(db, db')| == 1 && AllOfRun(NewSteps(db, db'), runId)
      && (var row := NewSteps(db, db')[0];
          row.stepName == Ingest && row.attempt == 1
          && row.status == StepFailed && row.error == Some(Str(e)))
      && (var r := db'.tables.runs[runId];
          r.status == Failed && r.error == Some(StepFailureMessage(Ingest, Str(e)))
          && r.totalRecords == 0 && r.validRecords == 0 && r.invalidRecords == 0)
  {
    var e := oracles.ingest(1).error;
    StageRefused(db, runId, Ingest, oracles.ingest, settings);
    var s := RunStepSpec(db, runId, Ingest, oracles.ingest, settings);
    var db' := ExecuteSteps(db, runId, settings, oracles);
    assert db' == MarkFailed(s.db, runId, StepFailureMessage(Ingest, Str(e)), 0, 0, 0);
    MarkFailedSpec(s.db, runId, StepFailureMessage(Ingest, Str(e)), 0, 0, 0);
    assert db'.tables.steps == s.db.tables.steps;
  }

  // ---------------------------------------------------------------------
  // What `run` promises

  /** The ledger the `try` block finds and the run it works on, when `run`
      goes on to the steps: the row `create_or_get_run` returned, inserted
      just now or reset, then marked running. */
  function Started(db: Db, runDate: Date, runKey: string, triggerSource: string): (st: (Db, PipelineRun))
    requires Consistent(db)
    ensures Consistent(st.0) && st.1.id in st.0.tables.runs
  {
    CreateOrGetSpec(db, runKey, runDate, triggerSource);
    var (db1, run, created) := CreateOrGet(db, runKey, runDate, triggerSource);
    StartRunSpec(db1, run.id, created);
    (StartRun(db1, run.id, created), run)
  }

  /** When the key names no run or a failed one, `run` is the `try` block
      on the started run, and its result reports that run afterwards. */
  lemma ExecuteStarts(db: Db, settings: Settings, oracles: Oracles, runDate: Date, runKey: string, triggerSource: string)
    requires Consistent(db) && WillExecute(db, runKey)
    ensures var st := Started(db, runDate, runKey, triggerSource);
      var db' := ExecuteSteps(st.0, st.1.id, settings, oracles);
      && Execute(db, settings, oracles, runDate, runKey, triggerSource)
         == (db', ResultFromRun(db'.tables.runs[st.1.id], ReportPath(settings.outputDir, runKey), false))
      && Execute(db, settings, oracles, runDate, runKey, triggerSource).1.runId == st.1.id
  {
    var st := Started(db, runDate, runKey, triggerSource);
    ExecuteStepsEnds(st.0, st.1.id, settings, oracles);
  }

  /** Starting a run keeps every other run and the started run's identity:
      the run that held the key, or a new one under a fresh id with the
      requested date and trigger. */
  lemma StartedKeeps(db: Db, runDate: Date, runKey: string, triggerSource: string)
    requires Consistent(db)
    ensures var st := Started(db, runDate, runKey, triggerSource);
      var db2, run := st.0, st.1;
      && run.runKey == runKey
      && db2.tables.runs.Keys == db.tables.runs.Keys + {run.id}
      && (forall id :: id in db.tables.runs && id != run.id ==> db2.tables.runs[id] == db.tables.runs[id])
      && (var r := db2.tables.runs[run.id];
          r.id == run.id && r.runKey == runKey && r.runDate == run.runDate && r.triggerSource == run.triggerSource)
      && (HasRunKey(db.tables, runKey) ==> run == RunByKey(db.tables, runKey).value)
      && (!HasRunKey(db.tables, runKey) ==>
            run.id !in db.tables.runs && run.runDate == runDate && run.triggerSource == triggerSource)
  {
    CreateOrGetSpec(db, runKey, runDate, triggerSource);
    var (db1, run, created) := CreateOrGet(db, runKey, runDate, triggerSource);
    StartRunSpec(db1, run.id, created);
    var db2 := StartRun(db1, run.id, created);
    assert db2.tables.runs.Keys == db1.tables.runs.Keys;
    if created {
      assert db1.tables.runs == db.tables.runs[run.id := run];
    } else {
      assert db1.tables == db.tables;
    }
  }

  /** A started run has no attempt row: a reset removed them, and a new run
      has none as long as every row points at an existing run. */
  lemma StartedFresh(db: Db, runDate: Date, runKey: string, triggerSource: string)
    requires Consistent(db) && (HasRunKey(db.tables, runKey) || ChildrenReferenceRuns(db.tables))
    ensures var st := Started(db, runDate, runKey, triggerSource);
      NoAttemptsFrom(st.0.tables.steps, st.1.id, 0)
  {
    CreateOrGetSpec(db, runKey, runDate, triggerSource);
    var (db1, run, created) := CreateOrGet(db, runKey, runDate, triggerSource);
    StartRunSpec(db1, run.id, created);
    var db2 := StartRun(db1, run.id, created);
    if created {
      forall i | 0 <= i < |db2.tables.steps| ensures db2.tables.steps[i].runId != run.id {
        assert db2.tables.steps[i] == db.tables.steps[i];
      }
    }
  }

  /** A key that names a run which has not failed is answered from the
      stored run: no table changes, and the result repeats the stored
      identity, status and counts, marked as reused. */
  lemma ExecuteReuses(db: Db, settings: Settings, oracles: Oracles, runDate: Date, runKey: string, triggerSource: string)
    requires Consistent(db) && !WillExecute(db, runKey)
    ensures var (db', res) := Execute(db, settings, oracles, runDate, runKey, triggerSource);
      var run := RunByKey(db.tables, runKey).value;
      && db'.tables == db.tables
      && run.status != Failed
      && res == PipelineResult(run.id, runKey, run.runDate, run.triggerSource, run.status,
                               run.totalRecords, run.validRecords, run.invalidRecords,
                               ReportPath(settings.outputDir, runKey), true)
  {
    CreateOrGetSpec(db, runKey, runDate, triggerSource);
  }

  /** A key that names no run, or a failed one, runs the steps: the run
      ends succeeded, its total split into valid and invalid, or failed
      with an error; the key names it; every other run is as before; an
      existing run keeps its id, date and trigger, a new run gets a fresh
      id and the requested date and trigger; and the result reports the
      stored run, not reused. */
  lemma ExecuteEnds(db: Db, settings: Settings, oracles: Oracles, runDate: Date, runKey: string, triggerSource: string)
    requires Consistent(db) && WillExecute(db, runKey)
    ensures var (db', res) := Execute(db, settings, oracles, runDate, runKey, triggerSource);
      && Consistent(db') && res.runId in db'.tables.runs
      && (var r := db'.tables.runs[res.runId];
          && res == ResultFromRun(r, ReportPath(settings.outputDir, runKey), false)
          && RunByKey(db'.tables, runKey) == Some(r)
          && r.runKey == runKey
          && (r.status == Succeeded || r.status == Failed)
          && (r.status == Succeeded ==> r.error == None && r.totalRecords == r.validRecords + r.invalidRecords)
          && (r.status == Failed ==> r.error.Some?))
      && db'.tables.runs.Keys == db.tables.runs.Keys + {res.runId}
      && (forall id :: id in db.tables.runs && id != res.runId ==> db'.tables.runs[id] == db.tables.runs[id])
      && (HasRunKey(db.tables, runKey) ==>
            var prior := RunByKey(db.tables, runKey).value;
            res.runId == prior.id && res.runDate == prior.runDate && res.triggerSource == prior.triggerSource)
      && (!HasRunKey(db.tables, runKey) ==>
            res.runId !in db.tables.runs && res.runDate == runDate && res.triggerSource == triggerSource)
  {
    ExecuteStarts(db, settings, oracles, runDate, runKey, triggerSource);
    StartedKeeps(db, runDate, runKey, triggerSource);
    var (db2, run) := Started(db, runDate, runKey, triggerSource);
    ExecuteStepsEnds(db2, run.id, settings, oracles);
    var db' := ExecuteSteps(db2, run.id, settings, oracles);
    assert db'.tables.runs[run.id].runKey == runKey;
    assert RunByKey(db'.tables, runKey).value.id == run.id;
  }

  /** Asking again for a run that did not fail changes no table and gives
      back the first answer, now marked as reused. */
  lemma ExecuteTwice(db: Db, settings: Settings, oracles: Oracles, runDate: Date, runKey: string, triggerSource: string,
                     oracles2: Oracles, runDate2: Date, triggerSource2: string)
    requires Consistent(db)
    ensures var (db1, res1) := Execute(db, settings, oracles, runDate, runKey, triggerSource);
      res1.status != Failed ==>
        && Consistent(db1)
        && var (db2, res2) := Execute(db1, settings, oracles2, runDate2, runKey, triggerSource2);
           db2.tables == db1.tables && res2 == res1.(reusedExistingRun := true)
  {
    var (db1, res1) := Execute(db, settings, oracles, runDate, runKey, triggerSource);
    if res1.status != Failed {
      if WillExecute(db, runKey) {
        ExecuteEnds(db, settings, oracles, runDate, runKey, triggerSource);
      } else {
        CreateOrGetSpec(db, runKey, runDate, triggerSource);
      }
      assert Consistent(db1) && HasRunKey(db1.tables, runKey);
      ExecuteReuses(db1, settings, oracles2, runDate2, runKey, triggerSource2);
    }
  }

  /** The rows of a run that had none are the rows its steps added. */
  lemma RowsOfNew(db: Db, db': Db, runId: nat)
    requires StepsExtended(db, db') && NoAttemptsFrom(db.tables.steps, runId, 0)
    requires AllOfRun(NewSteps(db, db'), runId)
    ensures RowsOf(db'.tables.steps, runId) == NewSteps(db, db')
  {
    var keep := (s: StepRun) => s.runId == runId;
    assert db'.tables.steps == db.tables.steps + NewSteps(db, db');
    FilterAppend(db.tables.steps, NewSteps(db, db'), keep);
    FilterKeepsNone(db.tables.steps, keep);
    FilterKeepsAll(NewSteps(db, db'), keep);
  }

  /** The attempt rows a run holds after `run` went through its steps are in
      step order, each step begun only after the one before it succeeded. */
  lemma ExecuteOrder(db: Db, settings: Settings, oracles: Oracles, runDate: Date, runKey: string, triggerSource: string)
    requires Consistent(db) && WillExecute(db, runKey)
    requires HasRunKey(db.tables, runKey) || ChildrenReferenceRuns(db.tables)
    ensures var (db', res) := Execute(db, settings, oracles, runDate, runKey, triggerSource);
      InStepOrder(RowsOf(db'.tables.steps, res.runId), 0)
  {
    ExecuteStarts(db, settings, oracles, runDate, runKey, triggerSource);
    StartedFresh(db, runDate, runKey, triggerSource);
    var (db2, run) := Started(db, runDate, runKey, triggerSource);
    var db' := ExecuteSteps(db2, run.id, settings, oracles);
    ExecuteStepsOrder(db2, run.id, settings, oracles);
    RowsOfNew(db2, db', run.id);
  }

  /** When ingest and the report return at their first call, the run holds
      four attempt rows, one per step in order, each a succeeded first
      attempt, and it counts the ingested records and how validation split
      the transformed ones. */
  lemma ExecuteFirstTry(db: Db, settings: Settings, oracles: Oracles, runDate: Date, runKey: string, triggerSource: string)
    requires Consistent(db) && WillExecute(db, runKey)
    requires HasRunKey(db.tables, runKey) || ChildrenReferenceRuns(db.tables)
    requires settings.maxStepRetries >= 0
    requires oracles.ingest(1).Returned? && oracles.publishOutputs(1).Returned?
    ensures var (db', res) := Execute(db, settings, oracles, runDate, runKey, triggerSource);
      var ingested := oracles.ingest(1).value;
      var rows := RowsOf(db'.tables.steps, res.runId);
      && |rows| == |StepOrder| && FirstTries(rows, res.runId, 0)
      && res.totalRecords == |ingested|
      && res.validRecords == |Partition(Transformed(ingested)).0|
      && res.invalidRecords == |Partition(Transformed(ingested)).1|
  {
    ExecuteStarts(db, settings, oracles, runDate, runKey, triggerSource);
    StartedFresh(db, runDate, runKey, triggerSource);
    var (db2, run) := Started(db, runDate, runKey, triggerSource);
    ExecuteStepsFirstTry(db2, run.id, settings, oracles);
    var db' := ExecuteSteps(db2, run.id, settings, oracles);
    assert AllOfRun(NewSteps(db2, db'), run.id);
    RowsOfNew(db2, db', run.id);
  }

  /** A missing or malformed input file fails the run at its first ingest
      attempt: one failed ingest row, and the run failed with the step's
      message and zero counts. */
  lemma ExecuteRefusedIngest(db: Db, settings: Settings, oracles: Oracles, runDate: Date, runKey: string, triggerSource: string)
    requires Consistent(db) && WillExecute(db, runKey)
    requires HasRunKey(db.tables, runKey) || ChildrenReferenceRuns(db.tables)
    requires settings.maxStepRetries >= 0
    requires oracles.ingest(1).Raised?
    requires oracles.ingest(1).error.FileNotFound? || oracles.ingest(1).error.JsonDecode?
    ensures var (db', res) := Execute(db, settings, oracles, runDate, runKey, triggerSource);
      var e := oracles.ingest(1).error;
      var rows := RowsOf(db'.tables.steps, res.runId);
      && |rows| == 1
      && rows[0].stepName == Ingest && rows[0].attempt == 1
      && rows[0].status == StepFailed && rows[0].error == Some(Str(e))
      && res.status == Failed && res.runId in db'.tables.runs
      && db'.tables.runs[res.runId].error == Some(StepFailureMessage(Ingest, Str(e)))
      && res.totalRecords == 0 && res.validRecords == 0 && res.invalidRecords == 0
  {
    ExecuteStarts(db, settings, oracles, runDate, runKey, triggerSource);
    StartedFresh(db, runDate, runKey, triggerSource);
    var (db2, run) := Started(db, runDate, runKey, triggerSource);
    ExecuteStepsRefusedIngest(db2, run.id, settings, oracles);
    var db' := ExecuteSteps(db2, run.id, settings, oracles);
    RowsOfNew(db2, db', run.id);
  }

  // ---------------------------------------------------------------------
  // How the run ends, from what its steps returned

  /** The status and error the run row holds. */
  predicate RunRowIs(db: Db, runId: nat, status: RunStatus, error: Option<string>)
    requires runId in db.tables.runs
  {
    db.tables.runs[runId].status == status && db.tables.runs[runId].error == error
  }

  /** The counts the run row holds. */
  predicate CountsAre(db: Db, runId: nat, total: int, valid: int, invalid: int)
    requires runId in db.tables.runs
  {
    var r := db.tables.runs[runId];
    r.totalRecords == total && r.validRecords == valid && r.invalidRecords == invalid
  }

  /** How storing the results ends the run: succeeded when the new keys of
      the batch are distinct, otherwise failed with the refused commit. */
  predicate ResultsStored(db: Db, runId: nat, valid: seq<ValidRecord>, existing: set<string>)
    requires runId in db.tables.runs
  {
    if NewKeysDistinct(valid, existing) then RunRowIs(db, runId, Succeeded, None)
    else RunRowIs(db, runId, Failed, Some(Str(PublishedKeyConflict)))
  }

  lemma StoreResultsOutcome(db: Db, runId: nat, total: int, valid: seq<ValidRecord>, invalid: seq<InvalidRecord>)
    requires Consistent(db) && runId in db.tables.runs
    ensures var db' := StoreResults(db, runId, total, valid, invalid);
      && CountsAre(db', runId, total, |valid|, |invalid|)
      && ResultsStored(db', runId, valid, ExistingKeys(db.tables.published, runId))
  {
    StorePublishedSpec(db, runId, valid);
    StorePublishedCommits(db, runId, valid);
    var (db5, stored) := StorePublished(db, runId, valid);
    match stored
    case Raised(e5) =>
      MarkFailedSpec(db5, runId, Str(e5), total, |valid|, |invalid|);
    case Returned(_) =>
      StoreDeadLettersSpec(db5, runId, invalid);
      var db6 := StoreDeadLetterRows(db5, runId, invalid);
      MarkSucceededSpec(db6, runId, total, |valid|, |invalid|);
  }

  /** Once the records are split, the run counts them whatever happens
      next; a report step that raises, or runs out of tries, fails the run
      with that error; a report step that returns leaves the run to the
      storing of the results. */
  lemma AfterValidateOutcome(db: Db, runId: nat, settings: Settings, oracles: Oracles, total: int,
                             valid: seq<ValidRecord>, invalid: seq<InvalidRecord>)
    requires Consistent(db) && runId in db.tables.runs
    ensures var s := RunStepSpec(db, runId, PublishReport, oracles.publishOutputs, settings);
      var o := StepOutcome(s.result, PublishReport);
      var db' := AfterValidate(db, runId, settings, oracles, total, valid, invalid);
      && CountsAre(db', runId, total, |valid|, |invalid|)
      && (o.Raised? ==> RunRowIs(db', runId, Failed, Some(Str(o.error))))
      && (s.result.Exhausted? ==> RunRowIs(db', runId, Failed, Some(StepFailureMessage(PublishReport, s.result.message))))
      && (o.Returned? ==> ResultsStored(db', runId, valid, ExistingKeys(db.tables.published, runId)))
  {
    var s := RunStepSpec(db, runId, PublishReport, oracles.publishOutputs, settings);
    match StepOutcome(s.result, PublishReport)
    case Raised(e) =>
      MarkFailedSpec(s.db, runId, Str(e), total, |valid|, |invalid|);
    case Returned(_) =>
      StoreResultsOutcome(s.db, runId, total, valid, invalid);
  }

  /** With no tries allowed the validate step fails the run; otherwise the
      run counts how validation split the records, succeeds only when the
      new keys of the valid ones are distinct, and, when the report returns
      at its first call, ends as storing them says. */
  lemma AfterTransformOutcome(db: Db, runId: nat, settings: Settings, oracles: Oracles, total: int, transformed: seq<Record>)
    requires Consistent(db) && runId in db.tables.runs
    ensures var db' := AfterTransform(db, runId, settings, oracles, total, transformed);
      var (valid, invalid) := Partition(transformed);
      var existing := ExistingKeys(db.tables.published, runId);
      && (settings.maxStepRetries < 0 ==>
            CountsAre(db', runId, total, 0, 0)
            && RunRowIs(db', runId, Failed, Some(StepFailureMessage(Validate, NoErrorText))))
      && (settings.maxStepRetries >= 0 ==> CountsAre(db', runId, total, |valid|, |invalid|))
      && (db'.tables.runs[runId].status == Succeeded ==> NewKeysDistinct(valid, existing))
      && (settings.maxStepRetries >= 0 && oracles.publishOutputs(1).Returned? ==> ResultsStored(db', runId, valid, existing))
  {
    var partition := Partition(transformed);
    var s := RunStepSpec(db, runId, Validate, Always(partition), settings);
    if settings.maxStepRetries < 0 {
      MarkFailedSpec(s.db, runId, Str(Other(StepFailureMessage(Validate, NoErrorText))), total, 0, 0);
    } else {
      StepEndsAtFirstTry(db, runId, Validate, Always(partition), settings);
      AfterValidateOutcome(s.db, runId, settings, oracles, total, partition.0, partition.1);
      if oracles.publishOutputs(1).Returned? {
        StepEndsAtFirstTry(s.db, runId, PublishReport, oracles.publishOutputs, settings);
      }
    }
  }

  /** With no tries allowed the transform step fails the run with the
      ingested count; otherwise the run counts the ingested records and how
      validation split them once transformed, succeeds only when the new
      keys of the valid ones are distinct, and, when the report returns at
      its first call, ends as storing them says. */
  lemma AfterIngestOutcome(db: Db, runId: nat, settings: Settings, oracles: Oracles, ingested: seq<Record>)
    requires Consistent(db) && runId in db.tables.runs
    ensures var db' := AfterIngest(db, runId, settings, oracles, ingested);
      var (valid, invalid) := Partition(Transformed(ingested));
      var existing := ExistingKeys(db.tables.published, runId);
      && (settings.maxStepRetries < 0 ==>
            CountsAre(db', runId, |ingested|, 0, 0)
            && RunRowIs(db', runId, Failed, Some(StepFailureMessage(Transform, NoErrorText))))
      && (settings.maxStepRetries >= 0 ==> CountsAre(db', runId, |ingested|, |valid|, |invalid|))
      && (db'.tables.runs[runId].status == Succeeded ==> NewKeysDistinct(valid, existing))
      && (settings.maxStepRetries >= 0 && oracles.publishOutputs(1).Returned? ==> ResultsStored(db', runId, valid, existing))
  {
    var transformed := Transformed(ingested);
    var s := RunStepSpec(db, runId, Transform, Always(transformed), settings);
    if settings.maxStepRetries < 0 {
      MarkFailedSpec(s.db, runId, Str(Other(StepFailureMessage(Transform, NoErrorText))), |ingested|, 0, 0);
    } else {
      StepEndsAtFirstTry(db, runId, Transform, Always(transformed), settings);
      AfterTransformOutcome(s.db, runId, settings, oracles, |ingested|, transformed);
    }
  }

  /** How the `try` block ends the run: an ingest step that raises, or runs
      out of tries, fails the run with that error and zero counts; an
      ingest that returns the records sets the counts from them; the run
      succeeds only when ingest returned and the new keys of the valid
      records are distinct, and when ingest and the report return at their
      first calls, distinct new keys are also enough. */
  lemma ExecuteStepsOutcome(db: Db, runId: nat, settings: Settings, oracles: Oracles)
    requires Consistent(db) && runId in db.tables.runs
    ensures var s := RunStepSpec(db, runId, Ingest, oracles.ingest, settings);
      var o := StepOutcome(s.result, Ingest);
      var db' := ExecuteSteps(db, runId, settings, oracles);
      var existing := ExistingKeys(db.tables.published, runId);
      && (o.Raised? ==> CountsAre(db', runId, 0, 0, 0) && RunRowIs(db', runId, Failed, Some(Str(o.error))))
      && (s.result.Exhausted? ==> RunRowIs(db', runId, Failed, Some(StepFailureMessage(Ingest, s.result.message))))
      && (s.result.Success? ==>
            var (valid, invalid) := Partition(Transformed(s.result.value));
            CountsAre(db', runId, |s.result.value|, |valid|, |invalid|))
      && (db'.tables.runs[runId].status == Succeeded ==>
            s.result.Success? && NewKeysDistinct(Partition(Transformed(s.result.value)).0, existing))
      && (settings.maxStepRetries >= 0 && oracles.ingest(1).Returned? && oracles.publishOutputs(1).Returned? ==>
            ResultsStored(db', runId, Partition(Transformed(oracles.ingest(1).value)).0, existing))
  {
    var s := RunStepSpec(db, runId, Ingest, oracles.ingest, settings);
    match StepOutcome(s.result, Ingest)
    case Raised(e) =>
      MarkFailedSpec(s.db, runId, Str(e), 0, 0, 0);
    case Returned(ingested) =>
      assert settings.maxStepRetries >= 0;
      AfterIngestOutcome(s.db, runId, settings, oracles, ingested);
    if settings.maxStepRetries >= 0 && oracles.ingest(1).Returned? {
      StepEndsAtFirstTry(db, runId, Ingest, oracles.ingest, settings);
    }
  }

  /** A run that `run` starts holds no published record yet: a new run has
      none, and a reset deletes those of a failed one. */
  lemma StartedUnpublished(db: Db, runDate: Date, runKey: string, triggerSource: string)
    requires Consistent(db) && (HasRunKey(db.tables, runKey) || ChildrenReferenceRuns(db.tables))
    ensures var st := Started(db, runDate, runKey, triggerSource);
      ExistingKeys(st.0.tables.published, st.1.id) == {}
  {
    CreateOrGetSpec(db, runKey, runDate, triggerSource);
    var (db1, run, created) := CreateOrGet(db, runKey, runDate, triggerSource);
    ResetSpec(db1, run.id);
    var db1' := if created then db1 else Reset(db1, run.id);
    MarkRunningSpec(db1', run.id);
    var published := StartRun(db1, run.id, created).tables.published;
    forall p | p in published ensures p.runId != run.id {
      if created {
        var i :| 0 <= i < |db.tables.published| && db.tables.published[i] == p;
      }
    }
  }

  /** When ingest and the report return at their first call, `run` succeeds
      exactly when the valid records have distinct keys, and otherwise
      fails with the refused commit of the published records. */
  lemma ExecuteFirstTrySucceeds(db: Db, settings: Settings, oracles: Oracles, runDate: Date, runKey: string, triggerSource: string)
    requires Consistent(db) && WillExecute(db, runKey)
    requires HasRunKey(db.tables, runKey) || ChildrenReferenceRuns(db.tables)
    requires settings.maxStepRetries >= 0
    requires oracles.ingest(1).Returned? && oracles.publishOutputs(1).Returned?
    ensures var (db', res) := Execute(db, settings, oracles, runDate, runKey, triggerSource);
      var valid := Partition(Transformed(oracles.ingest(1).value)).0;
      && (res.status == Succeeded <==> NewKeysDistinct(valid, {}))
      && (!NewKeysDistinct(valid, {}) ==>
            res.status == Failed && res.runId in db'.tables.runs
            && db'.tables.runs[res.runId].error == Some(Str(PublishedKeyConflict)))
  {
    ExecuteStarts(db, settings, oracles, runDate, runKey, triggerSource);
    StartedUnpublished(db, runDate, runKey, triggerSource);
    var (db2, run) := Started(db, runDate, runKey, triggerSource);
    ExecuteStepsOutcome(db2, run.id, settings, oracles);
  }

  // ---------------------------------------------------------------------
  // Every child row keeps pointing at a run

  /** The dead letters and published records of `db'` are those of `db`
      followed by rows of run `runId`. */
  predicate ChildRowsAdded(db: Db, db': Db, runId: nat) {
    && |db.tables.deadLetters| <= |db'.tables.deadLetters|
    && db'.tables.deadLetters[..|db.tables.deadLetters|] == db.tables.deadLetters
    && (forall i :: |db.tables.deadLetters| <= i < |db'.tables.deadLetters| ==> db'.tables.deadLetters[i].runId == runId)
    && |db.tables.published| <= |db'.tables.published|
    && db'.tables.published[..|db.tables.published|] == db.tables.published
    && (forall i :: |db.tables.published| <= i < |db'.tables.published| ==> db'.tables.published[i].runId == runId)
  }

  lemma ChildRowsSame(db: Db, db': Db, runId: nat)
    requires db'.tables.deadLetters == db.tables.deadLetters && db'.tables.published == db.tables.published
    ensures ChildRowsAdded(db, db', runId)
  {
    assert db.tables.deadLetters[..|db.tables.deadLetters|] == db.tables.deadLetters;
    assert db.tables.published[..|db.tables.published|] == db.tables.published;
  }

  /** Storing the results adds dead letters and published records of the
      run only. */
  lemma StoreResultsChildRows(db: Db, runId: nat, total: int, valid: seq<ValidRecord>, invalid: seq<InvalidRecord>)
    requires Consistent(db) && runId in db.tables.runs
    ensures ChildRowsAdded(db, StoreResults(db, runId, total, valid, invalid), runId)
  {
    var existing := ExistingKeys(db.tables.published, runId);
    StorePublishedSpec(db, runId, valid);
    var (db5, stored) := StorePublished(db, runId, valid);
    match stored
    case Raised(e5) =>
      MarkFailedSpec(db5, runId, Str(e5), total, |valid|, |invalid|);
      ChildRowsSame(db, MarkFailed(db5, runId, Str(e5), total, |valid|, |invalid|), runId);
    case Returned(_) =>
      var plan := PublishPlan(runId, valid, existing);
      PublishPlanMembers(runId, valid, existing);
      var m := |db.tables.published|;
      forall i | m <= i < |db5.tables.published| ensures db5.tables.published[i].runId == runId {
        assert db5.tables.published[i] == plan[i - m] && plan[i - m] in plan;
      }
      assert db5.tables.published[..m] == db.tables.published;
      StoreDeadLettersSpec(db5, runId, invalid);
      var db6 := StoreDeadLetterRows(db5, runId, invalid);
      var d := |db5.tables.deadLetters|;
      forall i | d <= i < |db6.tables.deadLetters| ensures db6.tables.deadLetters[i].runId == runId {
        var k := i - d;
        assert db6.tables.deadLetters[d + k].runId == runId;
      }
      MarkSucceededSpec(db6, runId, total, |valid|, |invalid|);
  }

  lemma AfterValidateChildRows(db: Db, runId: nat, settings: Settings, oracles: Oracles, total: int,
                               valid: seq<ValidRecord>, invalid: seq<InvalidRecord>)
    requires Consistent(db) && runId in db.tables.runs
    ensures ChildRowsAdded(db, AfterValidate(db, runId, settings, oracles, total, valid, invalid), runId)
  {
    var s := RunStepSpec(db, runId, PublishReport, oracles.publishOutputs, settings);
    match StepOutcome(s.result, PublishReport)
    case Raised(e) =>
      MarkFailedSpec(s.db, runId, Str(e), total, |valid|, |invalid|);
      ChildRowsSame(db, MarkFailed(s.db, runId, Str(e), total, |valid|, |invalid|), runId);
    case Returned(_) => StoreResultsChildRows(s.db, runId, total, valid, invalid);
  }

  lemma AfterTransformChildRows(db: Db, runId: nat, settings: Settings, oracles: Oracles, total: int, transformed: seq<Record>)
    requires Consistent(db) && runId in db.tables.runs
    ensures ChildRowsAdded(db, AfterTransform(db, runId, settings, oracles, total, transformed), runId)
  {
    var s := RunStepSpec(db, runId, Validate, Always(Partition(transformed)), settings);
    match StepOutcome(s.result, Validate)
    case Raised(e) =>
      MarkFailedSpec(s.db, runId, Str(e), total, 0, 0);
      ChildRowsSame(db, MarkFailed(s.db, runId, Str(e), total, 0, 0), runId);
    case Returned(partition) => AfterValidateChildRows(s.db, runId, settings, oracles, total, partition.0, partition.1);
  }

  lemma AfterIngestChildRows(db: Db, runId: nat, settings: Settings, oracles: Oracles, ingested: seq<Record>)
    requires Consistent(db) && runId in db.tables.runs
    ensures ChildRowsAdded(db, AfterIngest(db, runId, settings, oracles, ingested), runId)
  {
    var s := RunStepSpec(db, runId, Transform, Always(Transformed(ingested)), settings);
    match StepOutcome(s.result, Transform)
    case Raised(e) =>
      MarkFailedSpec(s.db, runId, Str(e), |ingested|, 0, 0);
      ChildRowsSame(db, MarkFailed(s.db, runId, Str(e), |ingested|, 0, 0), runId);
    case Returned(transformed) => AfterTransformChildRows(s.db, runId, settings, oracles, |ingested|, transformed);
  }

  /** The `try` block adds dead letters and published records of its own
      run only. */
  lemma ExecuteStepsChildRows(db: Db, runId: nat, settings: Settings, oracles: Oracles)
    requires Consistent(db) && runId in db.tables.runs
    ensures ChildRowsAdded(db, ExecuteSteps(db, runId, settings, oracles), runId)
  {
    var s := RunStepSpec(db, runId, Ingest, oracles.ingest, settings);
    match StepOutcome(s.result, Ingest)
    case Raised(e) =>
      MarkFailedSpec(s.db, runId, Str(e), 0, 0, 0);
      ChildRowsSame(db, MarkFailed(s.db, runId, Str(e), 0, 0, 0), runId);
    case Returned(ingested) => AfterIngestChildRows(s.db, runId, settings, oracles, ingested);
  }

  /** Rows added for an existing run, to a ledger whose child rows point at
      runs, keep every child row pointing at a run. */
  lemma ReferencesAfterSteps(db: Db, db': Db, runId: nat)
    requires ChildrenReferenceRuns(db.tables) && runId in db.tables.runs && db'.tables.runs.Keys == db.tables.runs.Keys
    requires StepsExtended(db, db') && AllOfRun(NewSteps(db, db'), runId) && ChildRowsAdded(db, db', runId)
    ensures ChildrenReferenceRuns(db'.tables)
  {
    var t, t' := db.tables, db'.tables;
    forall i | 0 <= i < |t'.steps| ensures t'.steps[i].runId in t'.runs {
      if i < |t.steps| {
        assert t'.steps[i] == t'.steps[..|t.steps|][i];
      } else {
        assert t'.steps[i] == NewSteps(db, db')[i - |t.steps|];
      }
    }
    forall i | 0 <= i < |t'.deadLetters| ensures t'.deadLetters[i].runId in t'.runs {
      if i < |t.deadLetters| {
        assert t'.deadLetters[i] == t'.deadLetters[..|t.deadLetters|][i];
      }
    }
    forall i | 0 <= i < |t'.published| ensures t'.published[i].runId in t'.runs {
      if i < |t.published| {
        assert t'.published[i] == t'.published[..|t.published|][i];
      }
    }
  }

  /** Keeping a subset of the child rows and at least the runs keeps every
      child row pointing at a run. */
  lemma FewerRowsReferences(t: Tables, t': Tables)
    requires ChildrenReferenceRuns(t) && t.runs.Keys <= t'.runs.Keys
    requires forall s :: s in t'.steps ==> s in t.steps
    requires forall d :: d in t'.deadLetters ==> d in t.deadLetters
    requires forall p :: p in t'.published ==> p in t.published
    ensures ChildrenReferenceRuns(t')
  {
    forall i | 0 <= i < |t'.steps| ensures t'.steps[i].runId in t'.runs {
      assert t'.steps[i] in t'.steps;
      var j :| 0 <= j < |t.steps| && t.steps[j] == t'.steps[i];
    }
    forall i | 0 <= i < |t'.deadLetters| ensures t'.deadLetters[i].runId in t'.runs {
      assert t'.deadLetters[i] in t'.deadLetters;
      var j :| 0 <= j < |t.deadLetters| && t.deadLetters[j] == t'.deadLetters[i];
    }
    forall i | 0 <= i < |t'.published| ensures t'.published[i].runId in t'.runs {
      assert t'.published[i] in t'.published;
      var j :| 0 <= j < |t.published| && t.published[j] == t'.published[i];
    }
  }

  /** Resetting the run, when it was not just inserted, and marking it
      running keeps every child row pointing at a run. */
  lemma StartRunReferences(db: Db, runId: nat, created: bool)
    requires Consistent(db) && runId in db.tables.runs && ChildrenReferenceRuns(db.tables)
    ensures ChildrenReferenceRuns(StartRun(db, runId, created).tables)
  {
    ResetSpec(db, runId);
    var db1 := if created then db else Reset(db, runId);
    MarkRunningSpec(db1, runId);
    FewerRowsReferences(db.tables, StartRun(db, runId, created).tables);
  }

  /** Starting a run keeps every child row pointing at a run: an insert
      adds a run, a reset only deletes rows, and marking the run running
      changes no child row. */
  lemma StartedReferences(db: Db, runDate: Date, runKey: string, triggerSource: string)
    requires Consistent(db) && ChildrenReferenceRuns(db.tables)
    ensures ChildrenReferenceRuns(Started(db, runDate, runKey, triggerSource).0.tables)
  {
    CreateOrGetSpec(db, runKey, runDate, triggerSource);
    var (db1, run, created) := CreateOrGet(db, runKey, runDate, triggerSource);
    FewerRowsReferences(db.tables, db1.tables);
    StartRunReferences(db1, run.id, created);
  }

  /** `run` keeps every child row pointing at a run. */
  lemma ExecuteKeepsReferences(db: Db, settings: Settings, oracles: Oracles, runDate: Date, runKey: string, triggerSource: string)
    requires Consistent(db) && ChildrenReferenceRuns(db.tables)
    ensures ChildrenReferenceRuns(Execute(db, settings, oracles, runDate, runKey, triggerSource).0.tables)
  {
    if WillExecute(db, runKey) {
      ExecuteStarts(db, settings, oracles, runDate, runKey, triggerSource);
      StartedReferences(db, runDate, runKey, triggerSource);
      var (db2, run) := Started(db, runDate, runKey, triggerSource);
      ExecuteStepsEnds(db2, run.id, settings, oracles);
      ExecuteStepsOrder(db2, run.id, settings, oracles);
      ExecuteStepsChildRows(db2, run.id, settings, oracles);
      ReferencesAfterSteps(db2, ExecuteSteps(db2, run.id, settings, oracles), run.id);
    } else {
      ExecuteReuses(db, settings, oracles, runDate, runKey, triggerSource);
    }
  }

  /** `run` keeps the ledger consistent. */
  lemma ExecuteConsistent(db: Db, settings: Settings, oracles: Oracles, runDate: Date, runKey: string, triggerSource: string)
    requires Consistent(db)
    ensures Consistent(Execute(db, settings, oracles, runDate, runKey, triggerSource).0)
  {
    if WillExecute(db, runKey) {
      ExecuteEnds(db, settings, oracles, runDate, runKey, triggerSource);
    } else {
      CreateOrGetSpec(db, runKey, runDate, triggerSource);
    }
  }

  /** The arguments of one call of `run`. */
  datatype RunCall = RunCall(settings: Settings, oracles: Oracles, runDate: Date, runKey: string, triggerSource: string)

  /** The ledger after the calls of `run`, one after the other. */
  function Replay(db: Db, calls: seq<RunCall>): (db': Db)
    requires Consistent(db)
    ensures Consistent(db')
    decreases |calls|
  {
    if calls == [] then db
    else
      var c := calls[0];
      ExecuteConsistent(db, c.settings, c.oracles, c.runDate, c.runKey, c.triggerSource);
      Replay(Execute(db, c.settings, c.oracles, c.runDate, c.runKey, c.triggerSource).0, calls[1..])
  }

  lemma {:induction false} ReplayKeepsReferences(db: Db, calls: seq<RunCall>)
    requires Consistent(db) && ChildrenReferenceRuns(db.tables)
    ensures ChildrenReferenceRuns(Replay(db, calls).tables)
    decreases |calls|
  {
    if calls != [] {
      var c := calls[0];
      ExecuteConsistent(db, c.settings, c.oracles, c.runDate, c.runKey, c.triggerSource);
      ExecuteKeepsReferences(db, c.settings, c.oracles, c.runDate, c.runKey, c.triggerSource);
      ReplayKeepsReferences(Execute(db, c.settings, c.oracles, c.runDate, c.runKey, c.triggerSource).0, calls[1..]);
    }
  }

  /** Every ledger that calls of `run` build from the empty ledger is
      consistent and has every child row pointing at a run, whether or not
      the database enforces its foreign keys. */
  lemma ReplayFromEmpty(calls: seq<RunCall>)
    ensures Consistent(EmptyDb()) && Consistent(Replay(EmptyDb(), calls))
    ensures Consistent(EmptyDb()) && ChildrenReferenceRuns(Replay(EmptyDb(), calls).tables)
  {
    EmptyDbConsistent();
    ReplayKeepsReferences(EmptyDb(), calls);
  }

  // ---------------------------------------------------------------------
  // The runner

  class PipelineRunner {
    const settings: Settings
    /** The database every session of `session_factory` opens. */
    const ledger: Ledger

    constructor (settings: Settings, ledger: Ledger)
      ensures this.settings == settings && this.ledger == ledger
    {
      this.settings := settings;
      this.ledger := ledger;
    }

    /** `execute_once` of `_run_step` at call `k` of the retry loop: record
        a new attempt under the next free number, run the body, and finish
        the attempt as succeeded or failed. */
    method ExecuteOnce<T>(runId: nat, stepName: string, work: nat -> Outcome<T>, k: nat) returns (outcome: Outcome<T>)
      requires ledger.Valid()
      modifies ledger
      ensures ledger.Valid()
      ensures (ledger.State(), outcome) == TryOnce(old(ledger.State()), runId, stepName, work, k)
    {
      var attempt := NextAttempt(ledger.steps, runId, stepName);
      NextAttemptIsFree(ledger.Tables(), runId, stepName);
      CreateStepSpec(ledger.State(), runId, stepName, attempt);
      var created := ledger.CreateStepAttempt(runId, stepName, attempt);
      var step := created.value;
      assert ledger.steps[|ledger.steps| - 1] == step;
      outcome := work(k);
      if outcome.Returned? {
        ledger.FinishStepSuccess(step.id);
      } else {
        ledger.FinishStepFailure(step.id, Str(outcome.error));
      }
    }

    /** `run_with_retries(execute_once, ...)` inside `_run_step`: the loop of
        the retry executor, written out because each try writes to the
        ledger, with `_is_retryable` as the retry predicate. */
    method RetryStep<T>(runId: nat, stepName: string, work: nat -> Outcome<T>) returns (result: RetryResult<T>)
      requires ledger.Valid()
      modifies ledger
      ensures ledger.Valid()
      ensures ledger.State() == RunStepSpec(old(ledger.State()), runId, stepName, work, settings).db
      ensures result == RunStepSpec(old(ledger.State()), runId, stepName, work, settings).result
    {
      var maxRetries := settings.maxStepRetries;
      var lastError: Option<Error> := None;
      var attempt := 1;
      ghost var spec := RunStepSpec(ledger.State(), runId, stepName, work, settings);
      while attempt < maxRetries + 2
        invariant ledger.Valid()
        invariant maxRetries < 0 ==> lastError == None && ledger.State() == old(ledger.State())
        invariant maxRetries >= 0 ==> 1 <= attempt <= maxRetries + 1
        invariant maxRetries >= 0 ==> spec == StepFrom(ledger.State(), runId, stepName, work, settings, attempt)
        decreases maxRetries + 2 - attempt
      {
        ghost var before := ledger.State();
        var outcome := ExecuteOnce(runId, stepName, work, attempt);
        StepFromAfterTry(before, runId, stepName, work, settings, attempt, ledger.State(), outcome);
        if outcome.Returned? {
          return Success(outcome.value);
        }
        var exc := outcome.error;
        lastError := Some(exc);
        if attempt > maxRetries || !IsRetryable(stepName, exc) {
          break;
        }
        if settings.retryBackoff * attempt < 0 {
          return Escaped(NegativeSleep);
        }
        attempt := attempt + 1;
      }
      result := Exhausted(if lastError.Some? then Str(lastError.value) else NoErrorText);
    }

    /** `_run_step`: the retried step, with an exhausted retry loop raised
        again under a message naming the step. */
    method RunStep<T>(runId: nat, stepName: string, work: nat -> Outcome<T>) returns (out: Outcome<T>)
      requires ledger.Valid()
      modifies ledger
      ensures ledger.Valid()
      ensures var s := RunStepSpec(old(ledger.State()), runId, stepName, work, settings);
        ledger.State() == s.db && out == StepOutcome(s.result, stepName)
    {
      var result := RetryStep(runId, stepName, work);
      match result
      case Success(v) => out := Returned(v);
      case Exhausted(message) => out := Raised(Other(StepFailureMessage(stepName, message)));
      case Escaped(e) => out := Raised(e);
    }

    /** The `try` block of `run`: the four steps in order, then the
        published records and dead letters, then the run marked succeeded;
        any exception marks the run failed with the counts reached so far. */
    method RunSteps(runId: nat, oracles: Oracles)
      requires ledger.Valid() && runId in ledger.runs
      modifies ledger
      ensures ledger.Valid()
      ensures ledger.State() == ExecuteSteps(old(ledger.State()), runId, settings, oracles)
    {
      var totalRecords := 0;
      var validRecords: seq<ValidRecord> := [];
      var invalidRecords: seq<InvalidRecord> := [];

      var ingested := RunStep(runId, Ingest, oracles.ingest);
      if ingested.Raised? {
        ledger.MarkRunFailed(runId, Str(ingested.error), totalRecords, |validRecords|, |invalidRecords|);
        return;
      }
      totalRecords := |ingested.value|;

      // transform_records and validate_records never raise, so their
      // results can be computed before the attempt that returns them.
      var normalized := TransformRecords(ingested.value);
      var transformed := RunStep(runId, Transform, Always(normalized));
      if transformed.Raised? {
        ledger.MarkRunFailed(runId, Str(transformed.error), totalRecords, |validRecords|, |invalidRecords|);
        return;
      }

      var valid, invalid := ValidateRecords(transformed.value);
      var validated := RunStep(runId, Validate, Always((valid, invalid)));
      if validated.Raised? {
        ledger.MarkRunFailed(runId, Str(validated.error), totalRecords, |validRecords|, |invalidRecords|);
        return;
      }
      validRecords, invalidRecords := validated.value.0, validated.value.1;

      var reported := RunStep(runId, PublishReport, oracles.publishOutputs);
      if reported.Raised? {
        ledger.MarkRunFailed(runId, Str(reported.error), totalRecords, |validRecords|, |invalidRecords|);
        return;
      }

      var stored := ledger.StorePublishedRecords(runId, validRecords);
      if stored.Raised? {
        ledger.MarkRunFailed(runId, Str(stored.error), totalRecords, |validRecords|, |invalidRecords|);
        return;
      }
      ledger.StoreDeadLetters(runId, invalidRecords);
      ledger.MarkRunSucceeded(runId, totalRecords, |validRecords|, |invalidRecords|);
    }

    /** `PipelineRunner.run` */
    method Run(runDate: Date, runKey: string, oracles: Oracles, triggerSource: string := DefaultTriggerSource)
      returns (result: PipelineResult)
      requires ledger.Valid()
      modifies ledger
      ensures ledger.Valid()
      ensures (ledger.State(), result) == Execute(old(ledger.State()), settings, oracles, runDate, runKey, triggerSource)
    {
      CreateOrGetSpec(ledger.State(), runKey, runDate, triggerSource);
      var run, created := ledger.CreateOrGetRun(runKey, runDate, triggerSource);
      if !created {
        if run.status == Failed {
          ledger.ResetFailedRunState(run.id);
        } else {
          return ResultFromRun(run, ReportPath(settings.outputDir, runKey), true);
        }
      }
      ledger.MarkRunRunning(run.id);
      RunSteps(run.id, oracles);
      result := ResultFromRun(ledger.runs[run.id], ReportPath(settings.outputDir, runKey), false);
    }
  }
}
