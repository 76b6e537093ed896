/** The four row kinds of the run ledger (app/db_models.py), their column
    defaults, and the constraints the tables carry: unique run keys, unique
    step attempts per run and step name, unique published keys per run, and
    child rows that point at a run. */
module Entities {
  import opened Builtins
  import opened Schemas

  datatype RunStatus = Queued | Running | Succeeded | Failed

  /** The text stored in the `status` column of `pipeline_runs`. */
  function RunStatusText(s: RunStatus): string {
    match s
    case Queued => "queued"
    case Running => "running"
    case Succeeded => "succeeded"
    case Failed => "failed"
  }

  datatype StepStatus = Started | StepSucceeded | StepFailed

  /** The text stored in the `status` column of `step_runs`. */
  function StepStatusText(s: StepStatus): string {
    match s
    case Started => "started"
    case StepSucceeded => "succeeded"
    case StepFailed => "failed"
  }

  const DefaultTriggerSource := "manual"

  /** A row of `pipeline_runs`; timestamps are readings of the ledger clock. */
  datatype PipelineRun = PipelineRun(
    id: nat,
    runKey: string,
    runDate: Date,
    triggerSource: string,
    status: RunStatus,
    startedAt: nat,
    completedAt: Option<nat>,
    totalRecords: int,
    validRecords: int,
    invalidRecords: int,
    error: Option<string>)

  /** A row of `step_runs`; `durationMs` is measured in clock ticks. */
  datatype StepRun = StepRun(
    id: nat,
    runId: nat,
    stepName: string,
    attempt: int,
    status: StepStatus,
    startedAt: nat,
    completedAt: Option<nat>,
    durationMs: Option<int>,
    error: Option<string>)

  /** A row of `dead_letter_records`; `rawRecord` is the record that
      `str(record)` serialises. */
  datatype DeadLetterRecord = DeadLetterRecord(runId: nat, recordIndex: int, rawRecord: Record, reason: string)

  /** A row of `published_records`; `payload` is the valid record that
      `str(record)` serialises. */
  datatype PublishedRecord = PublishedRecord(runId: nat, recordKey: string, payload: ValidRecord)

  // ---------------------------------------------------------------------
  // Column defaults

  /** The state of a run before any step has run: queued, no completion
      time, no error, all three counts zero. */
  predicate Pristine(r: PipelineRun) {
    && r.status == Queued
    && r.completedAt == None
    && r.error == None
    && r.totalRecords == 0 && r.validRecords == 0 && r.invalidRecords == 0
  }

  /** A run as the insert leaves it: the given identity, everything else at
      its column default, `started_at` read from the clock. */
  function NewRun(id: nat, runKey: string, runDate: Date, triggerSource: string, now: nat): (r: PipelineRun)
    ensures Pristine(r) && r.startedAt == now
    ensures r.id == id && r.runKey == runKey && r.runDate == runDate && r.triggerSource == triggerSource
  {
    PipelineRun(id, runKey, runDate, triggerSource, Queued, now, None, 0, 0, 0, None)
  }

  /** A step attempt that has started and not yet finished. */
  predicate Open(s: StepRun) {
    s.status == Started && s.completedAt == None && s.durationMs == None && s.error == None
  }

  function NewStepRun(id: nat, runId: nat, stepName: string, attempt: int, now: nat): (s: StepRun)
    ensures Open(s) && s.startedAt == now
    ensures s.id == id && s.runId == runId && s.stepName == stepName && s.attempt == attempt
  {
    StepRun(id, runId, stepName, attempt, Started, now, None, None, None)
  }

  // ---------------------------------------------------------------------
  // Tables and their constraints

  datatype Tables = Tables(
    runs: map<nat, PipelineRun>,
    steps: seq<StepRun>,
    deadLetters: seq<DeadLetterRecord>,
    published: seq<PublishedRecord>)

  /** No two rows of `s` share a key. */
  predicate DistinctBy<R, K(==)>(s: seq<R>, key: R -> K) {
    forall i, j :: 0 <= i < j < |s| ==> key(s[i]) != key(s[j])
  }

  function StepId(s: StepRun): nat { s.id }

  /** The columns of `uq_step_attempt`. */
  function AttemptKey(s: StepRun): (nat, string, int) { (s.runId, s.stepName, s.attempt) }

  /** The columns of `uq_run_record_key`. */
  function PublishKey(p: PublishedRecord): (nat, string) { (p.runId, p.recordKey) }

  predicate RunsKeyedById(t: Tables) {
    forall id :: id in t.runs ==> t.runs[id].id == id
  }

  /** The unique index on `run_key`. */
  predicate RunKeysUnique(t: Tables) {
    forall a, b :: a in t.runs && b in t.runs && t.runs[a].runKey == t.runs[b].runKey ==> a == b
  }

  /** What the database enforces: primary keys and the three unique constraints. */
  predicate Constraints(t: Tables) {
    && RunsKeyedById(t)
    && RunKeysUnique(t)
    && DistinctBy(t.steps, StepId)
    && DistinctBy(t.steps, AttemptKey)
    && DistinctBy(t.published, PublishKey)
  }

  /** What the foreign keys state: every child row names an existing run.
      SQLite does not check this unless asked to; the pipeline keeps it
      without that check (see `Pipeline.ExecuteKeepsReferences`). */
  predicate ChildrenReferenceRuns(t: Tables) {
    && (forall i :: 0 <= i < |t.steps| ==> t.steps[i].runId in t.runs)
    && (forall i :: 0 <= i < |t.deadLetters| ==> t.deadLetters[i].runId in t.runs)
    && (forall i :: 0 <= i < |t.published| ==> t.published[i].runId in t.runs)
  }

  // ---------------------------------------------------------------------
  // Selecting rows

  /** The rows of `s` that `keep` accepts, in their original order. */
  function Filter<R(==, !new)>(s: seq<R>, keep: R -> bool): (r: seq<R>)
    ensures |r| <= |s|
    ensures forall x :: x in r <==> x in s && keep(x)
  {
    if s == [] then [] else (if keep(s[0]) then [s[0]] else []) + Filter(s[1..], keep)
  }

  /** Dropping rows never makes two remaining rows share a key. */
  lemma {:induction false} FilterKeepsDistinct<R(!new), K>(s: seq<R>, keep: R -> bool, key: R -> K)
    requires DistinctBy(s, key)
    ensures DistinctBy(Filter(s, keep), key)
    decreases |s|
  {
    if s != [] {
      var tail := s[1..];
      assert DistinctBy(tail, key) by {
        forall i, j | 0 <= i < j < |tail| ensures key(tail[i]) != key(tail[j]) {
          assert tail[i] == s[i + 1] && tail[j] == s[j + 1];
        }
      }
      FilterKeepsDistinct(tail, keep, key);
      var rest := Filter(tail, keep);
      forall y | y in rest ensures key(s[0]) != key(y) {
        var j :| 0 <= j < |tail| && tail[j] == y;
        assert s[j + 1] == y;
      }
      var r := Filter(s, keep);
      if keep(s[0]) {
        assert r == [s[0]] + rest;
        forall i, j | 0 <= i < j < |r| ensures key(r[i]) != key(r[j]) {
          assert r[j] == rest[j - 1];
          if i > 0 {
            assert r[i] == rest[i - 1];
          }
        }
      } else {
        assert r == rest;
      }
    }
  }

  /** Selecting from two runs of rows is selecting from each in turn. */
  lemma {:induction false} FilterAppend<R(!new)>(a: seq<R>, b: seq<R>, keep: R -> bool)
    ensures Filter(a + b, keep) == Filter(a, keep) + Filter(b, keep)
    decreases |a|
  {
    if a == [] {
      assert a + b == b;
    } else {
      assert (a + b)[1..] == a[1..] + b;
      FilterAppend(a[1..], b, keep);
    }
  }

  /** Rows that all pass are all kept, in order. */
  lemma {:induction false} FilterKeepsAll<R(!new)>(s: seq<R>, keep: R -> bool)
    requires forall i :: 0 <= i < |s| ==> keep(s[i])
    ensures Filter(s, keep) == s
    decreases |s|
  {
    if s != [] {
      FilterKeepsAll(s[1..], keep);
    }
  }

  /** Rows that all fail leave nothing. */
  lemma FilterKeepsNone<R(!new)>(s: seq<R>, keep: R -> bool)
    requires forall i :: 0 <= i < |s| ==> !keep(s[i])
    ensures Filter(s, keep) == []
  {
  }

  /** The attempt rows of run `runId` in the order they were added: what
      the run's `steps` relationship holds. */
  function RowsOf(steps: seq<StepRun>, runId: nat): (rows: seq<StepRun>)
    ensures forall s :: s in rows <==> s in steps && s.runId == runId
  {
    Filter(steps, (s: StepRun) => s.runId == runId)
  }

  /** The steps, dead letters and published records of every run but `runId`. */
  function WithoutChildrenOf(t: Tables, runId: nat): (u: Tables)
    ensures u.runs == t.runs
    ensures forall s :: s in u.steps <==> s in t.steps && s.runId != runId
    ensures forall d :: d in u.deadLetters <==> d in t.deadLetters && d.runId != runId
    ensures forall p :: p in u.published <==> p in t.published && p.runId != runId
  {
    Tables(
      t.runs,
      Filter(t.steps, (s: StepRun) => s.runId != runId),
      Filter(t.deadLetters, (d: DeadLetterRecord) => d.runId != runId),
      Filter(t.published, (p: PublishedRecord) => p.runId != runId))
  }

  lemma WithoutChildrenKeepsConstraints(t: Tables, runId: nat)
    requires Constraints(t)
    ensures Constraints(WithoutChildrenOf(t, runId))
  {
    FilterKeepsDistinct(t.steps, (s: StepRun) => s.runId != runId, StepId);
    FilterKeepsDistinct(t.steps, (s: StepRun) => s.runId != runId, AttemptKey);
    FilterKeepsDistinct(t.published, (p: PublishedRecord) => p.runId != runId, PublishKey);
  }

  /** Deleting a run through the ORM: the `steps` and `dead_letters`
      relationships cascade; published records go too only when the
      database itself honours `ON DELETE CASCADE` (`dbCascades`). */
  function DeleteRun(t: Tables, runId: nat, dbCascades: bool): (u: Tables)
    ensures runId !in u.runs
    ensures forall id :: id in u.runs <==> id in t.runs && id != runId
    ensures forall s :: s in u.steps <==> s in t.steps && s.runId != runId
    ensures forall d :: d in u.deadLetters <==> d in t.deadLetters && d.runId != runId
    ensures dbCascades ==> forall p :: p in u.published <==> p in t.published && p.runId != runId
    ensures !dbCascades ==> u.published == t.published
  {
    var w := WithoutChildrenOf(t, runId);
    Tables(t.runs - {runId}, w.steps, w.deadLetters, if dbCascades then w.published else t.published)
  }

  /** With the cascade in force, deleting a run leaves no child row pointing
      at a missing run. */
  lemma DeleteRunKeepsReferences(t: Tables, runId: nat)
    requires ChildrenReferenceRuns(t)
    ensures ChildrenReferenceRuns(DeleteRun(t, runId, true))
  {
    var u := DeleteRun(t, runId, true);
    forall i | 0 <= i < |u.steps| ensures u.steps[i].runId in u.runs {
      assert u.steps[i] in t.steps;
    }
    forall i | 0 <= i < |u.deadLetters| ensures u.deadLetters[i].runId in u.runs {
      assert u.deadLetters[i] in t.deadLetters;
    }
    forall i | 0 <= i < |u.published| ensures u.published[i].runId in u.runs {
      assert u.published[i] in t.published;
    }
  }

  /** Without it, a deleted run's published records stay behind, pointing at
      a run that no longer exists. */
  lemma DeleteRunOrphansPublished(t: Tables, runId: nat, p: PublishedRecord)
    requires p in t.published && p.runId == runId
    ensures p in DeleteRun(t, runId, false).published
    ensures !ChildrenReferenceRuns(DeleteRun(t, runId, false))
  {
    var u := DeleteRun(t, runId, false);
    var i :| 0 <= i < |u.published| && u.published[i] == p;
    assert u.published[i].runId !in u.runs;
  }

  /** Dead letters carry no uniqueness constraint: two identical rows break
      none of the constraints. */
  lemma DeadLettersMayRepeat(t: Tables, d: DeadLetterRecord)
    requires Constraints(t)
    ensures var u := t.(deadLetters := t.deadLetters + [d, d]);
      Constraints(u) && u.deadLetters[|t.deadLetters|] == u.deadLetters[|t.deadLetters| + 1]
  {
  }
}
