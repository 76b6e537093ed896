/** The run ledger (app/run_store.py): every state transition of the four
    tables, each one atomic commit.

    `Ledger` holds the tables as fields and changes them in place, as the
    session does; each of its methods is tied to a transition function on
    the whole state as a value (`Db`), and what the source promises about a
    transition is proved about that function. `utc_now()` is a logical
    clock that moves forward on every reading. */
module RunStore {
  import opened Builtins
  import opened Schemas
  import opened Entities

  /** The ledger as a value: the tables, the next ids the database hands
      out, and the clock. */
  datatype Db = Db(tables: Tables, nextRunId: nat, nextStepId: nat, clock: nat)

  /** The database constraints, ids below the next id to hand out, and
      every step started at an earlier reading of the clock. */
  predicate Consistent(db: Db) {
    && Constraints(db.tables)
    && (forall id :: id in db.tables.runs ==> id < db.nextRunId)
    && (forall i :: 0 <= i < |db.tables.steps| ==>
          db.tables.steps[i].id < db.nextStepId && db.tables.steps[i].startedAt < db.clock)
  }

  function EmptyDb(): Db {
    Db(Tables(map[], [], [], []), 1, 1, 0)
  }

  lemma EmptyDbConsistent()
    ensures Consistent(EmptyDb())
  {
  }

  /** The error text of a violated unique constraint. */
  const StepAttemptConflict := Other("UNIQUE constraint failed: step_runs.run_id, step_runs.step_name, step_runs.attempt")
  const PublishedKeyConflict := Other("UNIQUE constraint failed: published_records.run_id, published_records.record_key")

  // ---------------------------------------------------------------------
  // get_run_by_key / create_or_get_run

  predicate HasRunKey(t: Tables, runKey: string) {
    exists id :: id in t.runs && t.runs[id].runKey == runKey
  }

  /** `get_run_by_key`: the one run with that key, if any. */
  function RunByKey(t: Tables, runKey: string): (r: Option<PipelineRun>)
    requires RunsKeyedById(t) && RunKeysUnique(t)
    ensures r.Some? <==> HasRunKey(t, runKey)
    ensures r.Some? ==> r.value.id in t.runs && t.runs[r.value.id] == r.value && r.value.runKey == runKey
  {
    if HasRunKey(t, runKey) then
      var id :| id in t.runs && t.runs[id].runKey == runKey;
      Some(t.runs[id])
    else
      None
  }

  /** `create_or_get_run`: insert a queued run; if the unique key refuses
      it, roll back and return the run that holds the key. The default
      `started_at` reads the clock when the insert is attempted. */
  function CreateOrGet(db: Db, runKey: string, runDate: Date, triggerSource: string): (Db, PipelineRun, bool)
    requires Consistent(db)
  {
    var existing := RunByKey(db.tables, runKey);
    if existing.Some? then
      (db.(clock := db.clock + 1), existing.value, false)
    else
      var run := NewRun(db.nextRunId, runKey, runDate, triggerSource, db.clock);
      (Db(db.tables.(runs := db.tables.runs[run.id := run]), db.nextRunId + 1, db.nextStepId, db.clock + 1), run, true)
  }

  /** An absent key gets one new queued run and `created`; a present key
      leaves every table as it was and returns its run; either way the key
      then names the returned run and the constraints still hold. */
  lemma CreateOrGetSpec(db: Db, runKey: string, runDate: Date, triggerSource: string)
    requires Consistent(db)
    ensures var (db', run, created) := CreateOrGet(db, runKey, runDate, triggerSource);
      && Consistent(db')
      && (created <==> !HasRunKey(db.tables, runKey))
      && (created ==>
            && run.id !in db.tables.runs
            && db'.tables == db.tables.(runs := db.tables.runs[run.id := run])
            && Pristine(run) && run.runKey == runKey && run.runDate == runDate && run.triggerSource == triggerSource)
      && (!created ==> db'.tables == db.tables && run.id in db.tables.runs && db.tables.runs[run.id] == run)
      && RunByKey(db'.tables, runKey) == Some(run)
  {
    var (db', run, created) := CreateOrGet(db, runKey, runDate, triggerSource);
    if created {
      assert forall id :: id in db.tables.runs ==> db.tables.runs[id].runKey != runKey;
      assert RunKeysUnique(db'.tables);
      assert db'.tables.runs[run.id].runKey == runKey;
      var found := RunByKey(db'.tables, runKey);
      assert found.value.id == run.id;
    }
  }

  /** Asking twice for the same key: the second call creates nothing and
      returns the run the first one returned. */
  lemma CreateOrGetIdempotent(db: Db, runKey: string, runDate: Date, triggerSource: string,
                              runDate2: Date, triggerSource2: string)
    requires Consistent(db)
    ensures var (db1, run1, _) := CreateOrGet(db, runKey, runDate, triggerSource);
      Consistent(db1) &&
      var (db2, run2, created2) := CreateOrGet(db1, runKey, runDate2, triggerSource2);
      !created2 && run2 == run1 && db2.tables == db1.tables
  {
    CreateOrGetSpec(db, runKey, runDate, triggerSource);
    var (db1, run1, _) := CreateOrGet(db, runKey, runDate, triggerSource);
    CreateOrGetSpec(db1, runKey, runDate2, triggerSource2);
  }

  // ---------------------------------------------------------------------
  // reset_failed_run_state

  /** The run row after a reset: queued, no error, no completion time, zero
      counts; identity, trigger and `started_at` kept. */
  function ResetRun(r: PipelineRun): PipelineRun {
    r.(status := Queued, error := None, completedAt := None, totalRecords := 0, validRecords := 0, invalidRecords := 0)
  }

  /** A reset run is the run that inserting the same id, key, date and
      trigger at its original start time would have produced. */
  lemma ResetRunIsNew(r: PipelineRun)
    ensures ResetRun(r) == NewRun(r.id, r.runKey, r.runDate, r.triggerSource, r.startedAt)
    ensures Pristine(ResetRun(r))
  {
  }

  /** `reset_failed_run_state` */
  function Reset(db: Db, runId: nat): Db
    requires runId in db.tables.runs
  {
    var t := WithoutChildrenOf(db.tables, runId);
    db.(tables := t.(runs := t.runs[runId := ResetRun(t.runs[runId])]))
  }

  /** A reset removes every step, dead letter and published record of the
      run and no other run's rows, resets the run row and keeps every other
      run. */
  lemma ResetSpec(db: Db, runId: nat)
    requires Consistent(db) && runId in db.tables.runs
    ensures var db' := Reset(db, runId);
      && Consistent(db')
      && db'.tables.runs == db.tables.runs[runId := ResetRun(db.tables.runs[runId])]
      && (forall s :: s in db'.tables.steps <==> s in db.tables.steps && s.runId != runId)
      && (forall d :: d in db'.tables.deadLetters <==> d in db.tables.deadLetters && d.runId != runId)
      && (forall p :: p in db'.tables.published <==> p in db.tables.published && p.runId != runId)
      && db'.nextRunId == db.nextRunId && db'.nextStepId == db.nextStepId && db'.clock == db.clock
  {
    WithoutChildrenKeepsConstraints(db.tables, runId);
    var db' := Reset(db, runId);
    forall i | 0 <= i < |db'.tables.steps|
      ensures db'.tables.steps[i].id < db'.nextStepId && db'.tables.steps[i].startedAt < db'.clock
    {
      assert db'.tables.steps[i] in db.tables.steps;
    }
  }

  // ---------------------------------------------------------------------
  // mark_run_running / mark_run_succeeded / mark_run_failed

  function SetRun(db: Db, r: PipelineRun): Db
    requires r.id in db.tables.runs
  {
    db.(tables := db.tables.(runs := db.tables.runs[r.id := r]), clock := db.clock + 1)
  }

  /** `mark_run_running` */
  function MarkRunning(db: Db, runId: nat): Db
    requires runId in db.tables.runs && RunsKeyedById(db.tables)
  {
    SetRun(db, db.tables.runs[runId].(status := Running, startedAt := db.clock, error := None))
  }

  /** `mark_run_succeeded` */
  function MarkSucceeded(db: Db, runId: nat, totalRecords: int, validRecords: int, invalidRecords: int): Db
    requires runId in db.tables.runs && RunsKeyedById(db.tables)
  {
    SetRun(db, db.tables.runs[runId].(status := Succeeded, totalRecords := totalRecords, validRecords := validRecords,
                                      invalidRecords := invalidRecords, completedAt := Some(db.clock), error := None))
  }

  /** `mark_run_failed`; the counts default to zero. */
  function MarkFailed(db: Db, runId: nat, error: string, totalRecords: int := 0, validRecords: int := 0,
                      invalidRecords: int := 0): Db
    requires runId in db.tables.runs && RunsKeyedById(db.tables)
  {
    SetRun(db, db.tables.runs[runId].(status := Failed, error := Some(error), totalRecords := totalRecords,
                                      validRecords := validRecords, invalidRecords := invalidRecords,
                                      completedAt := Some(db.clock)))
  }

  /** Marking a run running changes only its row: status running, start
      time now, error cleared, counts and completion time kept. */
  lemma MarkRunningSpec(db: Db, runId: nat)
    requires Consistent(db) && runId in db.tables.runs
    ensures Consistent(MarkRunning(db, runId)) && SameRowsBut(db, MarkRunning(db, runId), runId)
    ensures var r, r' := db.tables.runs[runId], MarkRunning(db, runId).tables.runs[runId];
      && r'.status == Running && r'.error == None && r'.startedAt == db.clock
      && r'.completedAt == r.completedAt && SameCounts(r, r')
  {
  }

  /** Marking a run succeeded changes only its row: status succeeded, the
      given counts, error cleared, completion time now. */
  lemma MarkSucceededSpec(db: Db, runId: nat, total: int, valid: int, invalid: int)
    requires Consistent(db) && runId in db.tables.runs
    ensures var db' := MarkSucceeded(db, runId, total, valid, invalid);
      Consistent(db') && SameRowsBut(db, db', runId)
    ensures var r' := MarkSucceeded(db, runId, total, valid, invalid).tables.runs[runId];
      && r'.status == Succeeded && r'.error == None && r'.completedAt == Some(db.clock)
      && r'.totalRecords == total && r'.validRecords == valid && r'.invalidRecords == invalid
  {
  }

  /** Marking a run failed changes only its row: status failed, the given
      error and counts (zero unless given), completion time now. */
  lemma MarkFailedSpec(db: Db, runId: nat, error: string, total: int, valid: int, invalid: int)
    requires Consistent(db) && runId in db.tables.runs
    ensures var db' := MarkFailed(db, runId, error, total, valid, invalid);
      Consistent(db') && SameRowsBut(db, db', runId)
    ensures var r' := MarkFailed(db, runId, error, total, valid, invalid).tables.runs[runId];
      && r'.status == Failed && r'.error == Some(error) && r'.completedAt == Some(db.clock)
      && r'.totalRecords == total && r'.validRecords == valid && r'.invalidRecords == invalid
    ensures var r' := MarkFailed(db, runId, error).tables.runs[runId];
      r'.totalRecords == 0 && r'.validRecords == 0 && r'.invalidRecords == 0
  {
  }

  /** Every row but run `runId`'s is as before, and that run keeps its id,
      key, date and trigger. */
  predicate SameRowsBut(db: Db, db': Db, runId: nat)
    requires runId in db.tables.runs
  {
    && db'.tables.steps == db.tables.steps
    && db'.tables.deadLetters == db.tables.deadLetters
    && db'.tables.published == db.tables.published
    && db'.tables.runs.Keys == db.tables.runs.Keys
    && (forall id :: id in db.tables.runs && id != runId ==> db'.tables.runs[id] == db.tables.runs[id])
    && var r, r' := db.tables.runs[runId], db'.tables.runs[runId];
       r'.id == r.id && r'.runKey == r.runKey && r'.runDate == r.runDate && r'.triggerSource == r.triggerSource
  }

  predicate SameCounts(r: PipelineRun, r': PipelineRun) {
    r'.totalRecords == r.totalRecords && r'.validRecords == r.validRecords && r'.invalidRecords == r.invalidRecords
  }

  // ---------------------------------------------------------------------
  // create_step_attempt / finish_step_success / finish_step_failure

  predicate HasAttempt(t: Tables, runId: nat, stepName: string, attempt: int) {
    exists i :: 0 <= i < |t.steps| && AttemptKey(t.steps[i]) == (runId, stepName, attempt)
  }

  /** `create_step_attempt`: a started row, unless `uq_step_attempt`
      refuses it. `started_at` reads the clock before the insert. */
  function CreateStep(db: Db, runId: nat, stepName: string, attempt: int): (Db, Outcome<StepRun>) {
    var step := NewStepRun(db.nextStepId, runId, stepName, attempt, db.clock);
    if HasAttempt(db.tables, runId, stepName, attempt) then
      (db.(clock := db.clock + 1), Raised(StepAttemptConflict))
    else
      (Db(db.tables.(steps := db.tables.steps + [step]), db.nextRunId, db.nextStepId + 1, db.clock + 1), Returned(step))
  }

  /** A new attempt number adds exactly one started row with that number
      and a fresh id; a number already used for that run and step adds
      nothing and raises. */
  lemma CreateStepSpec(db: Db, runId: nat, stepName: string, attempt: int)
    requires Consistent(db)
    ensures var (db', out) := CreateStep(db, runId, stepName, attempt);
      && Consistent(db')
      && db'.tables.runs == db.tables.runs
      && db'.tables.deadLetters == db.tables.deadLetters && db'.tables.published == db.tables.published
      && (out.Returned? <==> !HasAttempt(db.tables, runId, stepName, attempt))
      && (out.Returned? ==>
            && db'.tables.steps == db.tables.steps + [out.value]
            && Open(out.value) && AttemptKey(out.value) == (runId, stepName, attempt)
            && (forall i :: 0 <= i < |db.tables.steps| ==> db.tables.steps[i].id != out.value.id))
      && (out.Raised? ==> db'.tables == db.tables && out.error == StepAttemptConflict)
  {
  }

  predicate HasStep(t: Tables, stepId: nat) {
    exists i :: 0 <= i < |t.steps| && t.steps[i].id == stepId
  }

  /** The position of the step with id `stepId`. */
  function StepIndex(t: Tables, stepId: nat): (i: nat)
    requires HasStep(t, stepId) && DistinctBy(t.steps, StepId)
    ensures i < |t.steps| && t.steps[i].id == stepId
  {
    var i :| 0 <= i < |t.steps| && t.steps[i].id == stepId; i
  }

  /** A finished attempt: terminal status, completion time, the time it
      took and its error. */
  function Finished(s: StepRun, status: StepStatus, now: nat, error: Option<string>): StepRun {
    s.(status := status, completedAt := Some(now), durationMs := Some(now - s.startedAt), error := error)
  }

  function FinishStep(db: Db, stepId: nat, status: StepStatus, error: Option<string>): Db
    requires HasStep(db.tables, stepId) && DistinctBy(db.tables.steps, StepId)
  {
    var i := StepIndex(db.tables, stepId);
    db.(tables := db.tables.(steps := db.tables.steps[i := Finished(db.tables.steps[i], status, db.clock, error)]),
        clock := db.clock + 1)
  }

  /** `finish_step_success` */
  function FinishSuccess(db: Db, stepId: nat): Db
    requires HasStep(db.tables, stepId) && DistinctBy(db.tables.steps, StepId)
  {
    FinishStep(db, stepId, StepSucceeded, None)
  }

  /** `finish_step_failure` */
  function FinishFailure(db: Db, stepId: nat, error: string): Db
    requires HasStep(db.tables, stepId) && DistinctBy(db.tables.steps, StepId)
  {
    FinishStep(db, stepId, StepFailed, Some(error))
  }

  /** Finishing an attempt successfully changes only that row: status
      succeeded, completion time now, duration the positive time since it
      started, error cleared. */
  lemma FinishSuccessSpec(db: Db, stepId: nat)
    requires Consistent(db) && HasStep(db.tables, stepId)
    ensures var i := StepIndex(db.tables, stepId);
      Consistent(FinishSuccess(db, stepId)) && SameStepsBut(db, FinishSuccess(db, stepId), i)
    ensures var i := StepIndex(db.tables, stepId);
      var s, s' := db.tables.steps[i], FinishSuccess(db, stepId).tables.steps[i];
      && s'.status == StepSucceeded && s'.error == None && s'.completedAt == Some(db.clock)
      && s'.durationMs == Some(db.clock - s.startedAt) && db.clock - s.startedAt > 0
  {
    FinishKeepsConstraints(db, stepId, StepSucceeded, None);
  }

  /** Finishing an attempt with a failure changes only that row: status
      failed, completion time now, duration the positive time since it
      started, the given error. */
  lemma FinishFailureSpec(db: Db, stepId: nat, error: string)
    requires Consistent(db) && HasStep(db.tables, stepId)
    ensures var i := StepIndex(db.tables, stepId);
      Consistent(FinishFailure(db, stepId, error)) && SameStepsBut(db, FinishFailure(db, stepId, error), i)
    ensures var i := StepIndex(db.tables, stepId);
      var s, s' := db.tables.steps[i], FinishFailure(db, stepId, error).tables.steps[i];
      && s'.status == StepFailed && s'.error == Some(error) && s'.completedAt == Some(db.clock)
      && s'.durationMs == Some(db.clock - s.startedAt) && db.clock - s.startedAt > 0
  {
    FinishKeepsConstraints(db, stepId, StepFailed, Some(error));
  }

  lemma FinishKeepsConstraints(db: Db, stepId: nat, status: StepStatus, error: Option<string>)
    requires Consistent(db) && HasStep(db.tables, stepId)
    ensures Consistent(FinishStep(db, stepId, status, error))
  {
    var steps := db.tables.steps;
    var a := FinishStep(db, stepId, status, error).tables.steps;
    assert forall j :: 0 <= j < |steps| ==> AttemptKey(a[j]) == AttemptKey(steps[j]) && StepId(a[j]) == StepId(steps[j]);
  }

  /** Every row but step `i` is as before, and step `i` keeps its id, run,
      step name, attempt number and start time. */
  predicate SameStepsBut(db: Db, db': Db, i: nat)
    requires i < |db.tables.steps|
  {
    && db'.tables.runs == db.tables.runs
    && db'.tables.deadLetters == db.tables.deadLetters
    && db'.tables.published == db.tables.published
    && |db'.tables.steps| == |db.tables.steps|
    && (forall j :: 0 <= j < |db.tables.steps| && j != i ==> db'.tables.steps[j] == db.tables.steps[j])
    && var s, s' := db.tables.steps[i], db'.tables.steps[i];
       s'.id == s.id && AttemptKey(s') == AttemptKey(s) && s'.startedAt == s.startedAt
  }

  // ---------------------------------------------------------------------
  // store_dead_letters

  /** One dead-letter row per invalid record, in input order. */
  function DeadLetterRows(runId: nat, invalid: seq<InvalidRecord>): seq<DeadLetterRecord> {
    seq(|invalid|, i requires 0 <= i < |invalid| =>
      DeadLetterRecord(runId, invalid[i].recordIndex, invalid[i].record, invalid[i].reason))
  }

  /** `store_dead_letters` */
  function StoreDeadLetterRows(db: Db, runId: nat, invalid: seq<InvalidRecord>): Db {
    db.(tables := db.tables.(deadLetters := db.tables.deadLetters + DeadLetterRows(runId, invalid)))
  }

  /** Exactly one row is appended per invalid record, in order, with the
      same index, record and reason, identical entries included; nothing
      else changes. */
  lemma StoreDeadLettersSpec(db: Db, runId: nat, invalid: seq<InvalidRecord>)
    requires Consistent(db)
    ensures var db' := StoreDeadLetterRows(db, runId, invalid);
      && Consistent(db')
      && db'.tables.runs == db.tables.runs && db'.tables.steps == db.tables.steps
      && db'.tables.published == db.tables.published && db'.clock == db.clock
      && |db'.tables.deadLetters| == |db.tables.deadLetters| + |invalid|
      && db'.tables.deadLetters[..|db.tables.deadLetters|] == db.tables.deadLetters
      && (forall i :: 0 <= i < |invalid| ==>
            var d := db'.tables.deadLetters[|db.tables.deadLetters| + i];
            d.runId == runId && d.recordIndex == invalid[i].recordIndex
            && d.rawRecord == invalid[i].record && d.reason == invalid[i].reason)
  {
  }

  // ---------------------------------------------------------------------
  // store_published_records

  /** The keys already published for `runId`. */
  function ExistingKeys(published: seq<PublishedRecord>, runId: nat): set<string> {
    set p | p in published && p.runId == runId :: p.recordKey
  }

  /** The rows the loop adds: one per record whose key was not published
      before the loop began, in input order. */
  function PublishPlan(runId: nat, records: seq<ValidRecord>, existing: set<string>): seq<PublishedRecord>
    decreases |records|
  {
    if records == [] then []
    else
      var n := |records| - 1;
      PublishPlan(runId, records[..n], existing)
        + (if records[n].recordKey in existing then [] else [PublishedRecord(runId, records[n].recordKey, records[n])])
  }

  /** The positions of the batch whose key was not published before the
      loop began. */
  function AbsentPositions(records: seq<ValidRecord>, existing: set<string>): (ps: seq<nat>)
    ensures forall k :: 0 <= k < |ps| ==> ps[k] < |records|
    decreases |records|
  {
    if records == [] then []
    else
      var n := |records| - 1;
      AbsentPositions(records[..n], existing) + (if records[n].recordKey in existing then [] else [n])
  }

  predicate Ascending(ps: seq<nat>) {
    forall k, l :: 0 <= k < l < |ps| ==> ps[k] < ps[l]
  }

  /** The absent positions are listed in ascending order, and a position is
      listed exactly when its key is absent. */
  lemma AbsentPositionsSpec(records: seq<ValidRecord>, existing: set<string>)
    ensures var ps := AbsentPositions(records, existing);
      && (forall k, l :: 0 <= k < l < |ps| ==> ps[k] < ps[l])
      && (forall i :: 0 <= i < |records| ==> (i in ps <==> records[i].recordKey !in existing))
  {
    AbsentAscending(records, existing);
    AbsentMembers(records, existing);
  }

  lemma {:induction false} AbsentAscending(records: seq<ValidRecord>, existing: set<string>)
    ensures Ascending(AbsentPositions(records, existing))
    decreases |records|
  {
    if records != [] {
      var n := |records| - 1;
      AbsentAscending(records[..n], existing);
      var front := AbsentPositions(records[..n], existing);
      var ps := AbsentPositions(records, existing);
      assert ps == front + (if records[n].recordKey in existing then [] else [n]);
      forall k, l | 0 <= k < l < |ps| ensures ps[k] < ps[l] {
        assert ps[k] == front[k] && front[k] < |records[..n]|;
        if l < |front| {
          assert ps[l] == front[l] && front[k] < front[l];
        } else {
          assert ps[l] == n;
        }
      }
    }
  }

  lemma {:induction false} AbsentMembers(records: seq<ValidRecord>, existing: set<string>)
    ensures var ps := AbsentPositions(records, existing);
      forall i :: 0 <= i < |records| ==> (i in ps <==> records[i].recordKey !in existing)
    decreases |records|
  {
    if records != [] {
      var n := |records| - 1;
      AbsentMembers(records[..n], existing);
      var front := AbsentPositions(records[..n], existing);
      var tail: seq<nat> := if records[n].recordKey in existing then [] else [n];
      var ps := AbsentPositions(records, existing);
      assert ps == front + tail;
      forall i | 0 <= i < |records| ensures (i in ps <==> records[i].recordKey !in existing) {
        if i < n {
          assert records[..n][i] == records[i];
          assert i !in tail;
        } else {
          assert n !in front;
        }
      }
    }
  }

  /** The plan holds one row per absent position, in the order of the
      positions, each carrying that record under its key. */
  lemma {:induction false} PublishPlanAtPositions(runId: nat, records: seq<ValidRecord>, existing: set<string>)
    ensures var plan, ps := PublishPlan(runId, records, existing), AbsentPositions(records, existing);
      && |plan| == |ps|
      && (forall k :: 0 <= k < |plan| ==> plan[k] == PublishedRecord(runId, records[ps[k]].recordKey, records[ps[k]]))
    decreases |records|
  {
    if records != [] {
      var n := |records| - 1;
      PublishPlanAtPositions(runId, records[..n], existing);
      var front := AbsentPositions(records[..n], existing);
      forall k | 0 <= k < |front| ensures records[..n][front[k]] == records[front[k]] {
      }
    }
  }

  /** The plan never holds an already-published key. It holds one row for
      each record whose key was absent, in batch order, once per occurrence
      in the batch, and nothing else. */
  lemma PublishPlanSpec(runId: nat, records: seq<ValidRecord>, existing: set<string>)
    ensures var plan := PublishPlan(runId, records, existing);
      && (forall p :: p in plan ==>
            p.runId == runId && p.recordKey !in existing && p.payload in records && p.recordKey == p.payload.recordKey)
      && (forall r :: r in records && r.recordKey !in existing ==> PublishedRecord(runId, r.recordKey, r) in plan)
      && ((forall r :: r in records ==> r.recordKey in existing) ==> plan == [])
    ensures var plan, ps := PublishPlan(runId, records, existing), AbsentPositions(records, existing);
      && |plan| == |ps|
      && (forall k :: 0 <= k < |plan| ==> plan[k] == PublishedRecord(runId, records[ps[k]].recordKey, records[ps[k]]))
      && (forall k, l :: 0 <= k < l < |ps| ==> ps[k] < ps[l])
      && (forall i :: 0 <= i < |records| ==> (i in ps <==> records[i].recordKey !in existing))
  {
    PublishPlanAtPositions(runId, records, existing);
    AbsentPositionsSpec(records, existing);
    PublishPlanMembers(runId, records, existing);
  }

  lemma {:induction false} PublishPlanMembers(runId: nat, records: seq<ValidRecord>, existing: set<string>)
    ensures var plan := PublishPlan(runId, records, existing);
      && (forall p :: p in plan ==>
            p.runId == runId && p.recordKey !in existing && p.payload in records && p.recordKey == p.payload.recordKey)
      && (forall r :: r in records && r.recordKey !in existing ==> PublishedRecord(runId, r.recordKey, r) in plan)
      && ((forall r :: r in records ==> r.recordKey in existing) ==> plan == [])
    decreases |records|
  {
    if records != [] {
      var n := |records| - 1;
      PublishPlanMembers(runId, records[..n], existing);
      forall r | r in records && r.recordKey !in existing
        ensures PublishedRecord(runId, r.recordKey, r) in PublishPlan(runId, records, existing)
      {
        if r != records[n] {
          var j :| 0 <= j < |records| && records[j] == r;
          assert records[..n][j] == r;
          assert PublishedRecord(runId, r.recordKey, r) in PublishPlan(runId, records[..n], existing);
        }
      }
      if forall r :: r in records ==> r.recordKey in existing {
        assert forall r :: r in records[..n] ==> r in records;
      }
    }
  }

  /** `store_published_records`: the commit fails, and nothing is stored,
      when the new rows break `uq_run_record_key`. */
  function StorePublished(db: Db, runId: nat, records: seq<ValidRecord>): (Db, Outcome<()>) {
    var plan := PublishPlan(runId, records, ExistingKeys(db.tables.published, runId));
    var published' := db.tables.published + plan;
    if DistinctBy(published', PublishKey) then
      (db.(tables := db.tables.(published := published')), Returned(()))
    else
      (db, Raised(PublishedKeyConflict))
  }

  /** The commit succeeds exactly when the planned rows have distinct keys;
      on success exactly the planned rows are appended, on failure nothing
      changes. */
  lemma StorePublishedSpec(db: Db, runId: nat, records: seq<ValidRecord>)
    requires Consistent(db)
    ensures var plan := PublishPlan(runId, records, ExistingKeys(db.tables.published, runId));
      var (db', out) := StorePublished(db, runId, records);
      && Consistent(db')
      && (out.Returned? <==> DistinctBy(plan, PublishKey))
      && (out.Returned? ==> db' == db.(tables := db.tables.(published := db.tables.published + plan)))
      && (out.Raised? ==> db' == db && out.error == PublishedKeyConflict)
  {
    var existing := ExistingKeys(db.tables.published, runId);
    PublishPlanMembers(runId, records, existing);
    AppendNewKeys(db.tables.published, PublishPlan(runId, records, existing), runId);
  }

  /** Rows for keys a run has not published yet keep a table free of
      duplicates exactly when they are free of duplicates themselves. */
  lemma AppendNewKeys(published: seq<PublishedRecord>, plan: seq<PublishedRecord>, runId: nat)
    requires DistinctBy(published, PublishKey)
    requires forall p :: p in plan ==> p.runId == runId && p.recordKey !in ExistingKeys(published, runId)
    ensures DistinctBy(published + plan, PublishKey) <==> DistinctBy(plan, PublishKey)
  {
    var all := published + plan;
    var m := |published|;
    if DistinctBy(plan, PublishKey) {
      forall i, j | 0 <= i < j < |all| ensures PublishKey(all[i]) != PublishKey(all[j]) {
        if i < m <= j {
          assert all[j] == plan[j - m] && plan[j - m] in plan;
          assert all[i] in published;
        } else if m <= i {
          assert all[i] == plan[i - m] && all[j] == plan[j - m];
        }
      }
    } else {
      var i, j :| 0 <= i < j < |plan| && PublishKey(plan[i]) == PublishKey(plan[j]);
      assert all[m + i] == plan[i] && all[m + j] == plan[j];
    }
  }

  /** No two records of the batch share a key the run has not published. */
  predicate NewKeysDistinct(records: seq<ValidRecord>, existing: set<string>) {
    forall i, j :: 0 <= i < j < |records| && records[i].recordKey == records[j].recordKey ==> records[i].recordKey in existing
  }

  /** The commit succeeds exactly when no two records of the batch share a
      key the run has not published; it then appends exactly the planned
      rows. */
  lemma StorePublishedCommits(db: Db, runId: nat, records: seq<ValidRecord>)
    requires Consistent(db)
    ensures var existing := ExistingKeys(db.tables.published, runId);
      StorePublished(db, runId, records).1.Returned? <==> NewKeysDistinct(records, existing)
    ensures var existing := ExistingKeys(db.tables.published, runId);
      NewKeysDistinct(records, existing) ==>
        StorePublished(db, runId, records)
        == (db.(tables := db.tables.(published := db.tables.published + PublishPlan(runId, records, existing))), Returned(()))
  {
    var existing := ExistingKeys(db.tables.published, runId);
    StorePublishedSpec(db, runId, records);
    if NewKeysDistinct(records, existing) {
      NewKeysDistinctPlan(runId, records, existing);
    } else {
      var i, j :| 0 <= i < j < |records| && records[i].recordKey == records[j].recordKey && records[i].recordKey !in existing;
      DuplicateKeysInBatchFail(db, runId, records, i, j);
    }
  }

  /** A batch whose absent keys are distinct plans rows with distinct keys. */
  lemma NewKeysDistinctPlan(runId: nat, records: seq<ValidRecord>, existing: set<string>)
    requires NewKeysDistinct(records, existing)
    ensures DistinctBy(PublishPlan(runId, records, existing), PublishKey)
  {
    PublishPlanSpec(runId, records, existing);
    var plan, ps := PublishPlan(runId, records, existing), AbsentPositions(records, existing);
    forall a, b | 0 <= a < b < |plan| ensures PublishKey(plan[a]) != PublishKey(plan[b]) {
      assert ps[a] in ps;
    }
  }

  /** Publishing a batch again after it was stored adds nothing. */
  lemma RepublishIsNoOp(db: Db, runId: nat, records: seq<ValidRecord>)
    requires Consistent(db) && NewKeysDistinct(records, ExistingKeys(db.tables.published, runId))
    ensures StorePublished(db, runId, records).1.Returned?
    ensures var db1 := StorePublished(db, runId, records).0;
      StorePublished(db1, runId, records) == (db1, Returned(()))
  {
    StorePublishedCommits(db, runId, records);
    StorePublishedSpec(db, runId, records);
    var db1 := StorePublished(db, runId, records).0;
    var existing := ExistingKeys(db.tables.published, runId);
    var existing1 := ExistingKeys(db1.tables.published, runId);
    PublishPlanMembers(runId, records, existing);
    var plan := PublishPlan(runId, records, existing);
    assert db1.tables.published == db.tables.published + plan;
    forall r | r in records ensures r.recordKey in existing1 {
      if r.recordKey !in existing {
        var p := PublishedRecord(runId, r.recordKey, r);
        assert p in plan;
        assert p in db1.tables.published;
      } else {
        var p :| p in db.tables.published && p.runId == runId && p.recordKey == r.recordKey;
        assert p in db1.tables.published;
      }
    }
    PublishPlanMembers(runId, records, existing1);
    assert db1.tables.published + [] == db1.tables.published;
  }

  /** Two records with the same new key in one batch are not filtered: the
      commit fails and nothing is stored. */
  lemma DuplicateKeysInBatchFail(db: Db, runId: nat, records: seq<ValidRecord>, i: nat, j: nat)
    requires Consistent(db)
    requires i < j < |records| && records[i].recordKey == records[j].recordKey
    requires records[i].recordKey !in ExistingKeys(db.tables.published, runId)
    ensures StorePublished(db, runId, records) == (db, Raised(PublishedKeyConflict))
  {
    var existing := ExistingKeys(db.tables.published, runId);
    PlanKeepsBothCopies(runId, records, existing, i, j);
    StorePublishedSpec(db, runId, records);
  }

  /** Two batch positions with the same absent key give two plan rows with
      the same key. */
  lemma {:induction false} PlanKeepsBothCopies(runId: nat, records: seq<ValidRecord>, existing: set<string>, i: nat, j: nat)
    requires i < j < |records| && records[i].recordKey == records[j].recordKey && records[i].recordKey !in existing
    ensures !DistinctBy(PublishPlan(runId, records, existing), PublishKey)
    decreases |records|
  {
    var n := |records| - 1;
    var prefix := records[..n];
    var plan := PublishPlan(runId, prefix, existing);
    if j < n {
      PlanKeepsBothCopies(runId, prefix, existing, i, j);
      var a, b :| 0 <= a < b < |plan| && PublishKey(plan[a]) == PublishKey(plan[b]);
      var full := PublishPlan(runId, records, existing);
      assert full[a] == plan[a] && full[b] == plan[b];
    } else {
      PublishPlanMembers(runId, prefix, existing);
      assert prefix[i] == records[i];
      assert records[i] in prefix;
      var p := PublishedRecord(runId, records[i].recordKey, records[i]);
      assert p in plan;
      var a :| 0 <= a < |plan| && plan[a] == p;
      var full := PublishPlan(runId, records, existing);
      assert full[a] == p && full[|plan|] == PublishedRecord(runId, records[j].recordKey, records[j]);
    }
  }

  // ---------------------------------------------------------------------
  // The ledger object

  class Ledger {
    var runs: map<nat, PipelineRun>
    var steps: seq<StepRun>
    var deadLetters: seq<DeadLetterRecord>
    var published: seq<PublishedRecord>
    var nextRunId: nat
    var nextStepId: nat
    var clock: nat

    function Tables(): Tables
      reads this
    {
      Entities.Tables(runs, steps, deadLetters, published)
    }

    function State(): Db
      reads this
    {
      Db(Tables(), nextRunId, nextStepId, clock)
    }

    ghost predicate Valid()
      reads this
    {
      Consistent(State())
    }

    constructor ()
      ensures Valid() && State() == EmptyDb()
    {
      runs, steps, deadLetters, published := map[], [], [], [];
      nextRunId, nextStepId, clock := 1, 1, 0;
    }

    /** `utc_now()` */
    method UtcNow() returns (now: nat)
      modifies this
      ensures now == old(clock) && clock == now + 1
      ensures Tables() == old(Tables()) && nextRunId == old(nextRunId) && nextStepId == old(nextStepId)
    {
      now := clock;
      clock := clock + 1;
    }

    /** `create_or_get_run` */
    method CreateOrGetRun(runKey: string, runDate: Date, triggerSource: string) returns (run: PipelineRun, created: bool)
      requires Valid()
      modifies this
      ensures Valid()
      ensures (State(), run, created) == CreateOrGet(old(State()), runKey, runDate, triggerSource)
    {
      CreateOrGetSpec(State(), runKey, runDate, triggerSource);
      var now := UtcNow();
      var candidate := NewRun(nextRunId, runKey, runDate, triggerSource, now);
      var existing := RunByKey(Tables(), runKey);
      if existing.Some? {
        run, created := existing.value, false;
        return;
      }
      runs := runs[candidate.id := candidate];
      nextRunId := nextRunId + 1;
      run, created := candidate, true;
    }

    /** `reset_failed_run_state` */
    method ResetFailedRunState(runId: nat)
      requires Valid() && runId in runs
      modifies this
      ensures Valid()
      ensures State() == Reset(old(State()), runId)
    {
      ResetSpec(State(), runId);
      var kept := WithoutChildrenOf(Tables(), runId);
      steps := kept.steps;
      deadLetters := kept.deadLetters;
      published := kept.published;
      runs := runs[runId := ResetRun(runs[runId])];
    }

    /** `mark_run_running` */
    method MarkRunRunning(runId: nat)
      requires Valid() && runId in runs
      modifies this
      ensures Valid()
      ensures State() == MarkRunning(old(State()), runId)
    {
      MarkRunningSpec(State(), runId);
      var now := UtcNow();
      runs := runs[runId := runs[runId].(status := Running, startedAt := now, error := None)];
    }

    /** `mark_run_succeeded` */
    method MarkRunSucceeded(runId: nat, totalRecords: int, validRecords: int, invalidRecords: int)
      requires Valid() && runId in runs
      modifies this
      ensures Valid()
      ensures State() == MarkSucceeded(old(State()), runId, totalRecords, validRecords, invalidRecords)
    {
      MarkSucceededSpec(State(), runId, totalRecords, validRecords, invalidRecords);
      var now := UtcNow();
      runs := runs[runId := runs[runId].(status := Succeeded, totalRecords := totalRecords, validRecords := validRecords,
                                         invalidRecords := invalidRecords, completedAt := Some(now), error := None)];
    }

    /** `mark_run_failed` */
    method MarkRunFailed(runId: nat, error: string, totalRecords: int := 0, validRecords: int := 0, invalidRecords: int := 0)
      requires Valid() && runId in runs
      modifies this
      ensures Valid()
      ensures State() == MarkFailed(old(State()), runId, error, totalRecords, validRecords, invalidRecords)
    {
      MarkFailedSpec(State(), runId, error, totalRecords, validRecords, invalidRecords);
      var now := UtcNow();
      runs := runs[runId := runs[runId].(status := Failed, error := Some(error), totalRecords := totalRecords,
                                         validRecords := validRecords, invalidRecords := invalidRecords,
                                         completedAt := Some(now))];
    }

    /** `create_step_attempt` */
    method CreateStepAttempt(runId: nat, stepName: string, attempt: int) returns (out: Outcome<StepRun>)
      requires Valid()
      modifies this
      ensures Valid()
      ensures (State(), out) == CreateStep(old(State()), runId, stepName, attempt)
    {
      CreateStepSpec(State(), runId, stepName, attempt);
      var now := UtcNow();
      var step := NewStepRun(nextStepId, runId, stepName, attempt, now);
      if HasAttempt(Tables(), runId, stepName, attempt) {
        return Raised(StepAttemptConflict);
      }
      steps := steps + [step];
      nextStepId := nextStepId + 1;
      out := Returned(step);
    }

    /** `finish_step_success` */
    method FinishStepSuccess(stepId: nat)
      requires Valid() && HasStep(Tables(), stepId)
      modifies this
      ensures Valid()
      ensures State() == FinishSuccess(old(State()), stepId)
    {
      FinishSuccessSpec(State(), stepId);
      var i := StepIndex(Tables(), stepId);
      var now := UtcNow();
      steps := steps[i := Finished(steps[i], StepSucceeded, now, None)];
    }

    /** `finish_step_failure` */
    method FinishStepFailure(stepId: nat, error: string)
      requires Valid() && HasStep(Tables(), stepId)
      modifies this
      ensures Valid()
      ensures State() == FinishFailure(old(State()), stepId, error)
    {
      FinishFailureSpec(State(), stepId, error);
      var i := StepIndex(Tables(), stepId);
      var now := UtcNow();
      steps := steps[i := Finished(steps[i], StepFailed, now, Some(error))];
    }

    /** `store_dead_letters` */
    method StoreDeadLetters(runId: nat, invalidRecords: seq<InvalidRecord>)
      requires Valid()
      modifies this
      ensures Valid()
      ensures State() == StoreDeadLetterRows(old(State()), runId, invalidRecords)
    {
      StoreDeadLettersSpec(State(), runId, invalidRecords);
      ghost var before := deadLetters;
      for k := 0 to |invalidRecords|
        invariant deadLetters == before + DeadLetterRows(runId, invalidRecords[..k])
        invariant runs == old(runs) && steps == old(steps) && published == old(published)
        invariant nextRunId == old(nextRunId) && nextStepId == old(nextStepId) && clock == old(clock)
      {
        var invalid := invalidRecords[k];
        deadLetters := deadLetters + [DeadLetterRecord(runId, invalid.recordIndex, invalid.record, invalid.reason)];
      }
      assert invalidRecords[..|invalidRecords|] == invalidRecords;
    }

    /** `store_published_records` */
    method StorePublishedRecords(runId: nat, records: seq<ValidRecord>) returns (out: Outcome<()>)
      requires Valid()
      modifies this
      ensures Valid()
      ensures (State(), out) == StorePublished(old(State()), runId, records)
    {
      StorePublishedSpec(State(), runId, records);
      var existingKeys := ExistingKeys(published, runId);
      var pending: seq<PublishedRecord> := [];
      for k := 0 to |records|
        invariant pending == PublishPlan(runId, records[..k], existingKeys)
      {
        assert records[..k + 1][..k] == records[..k];
        var recordKey := records[k].recordKey;
        if recordKey in existingKeys {
          continue;
        }
        pending := pending + [PublishedRecord(runId, recordKey, records[k])];
      }
      assert records[..|records|] == records;
      if !DistinctBy(published + pending, PublishKey) {
        return Raised(PublishedKeyConflict);
      }
      published := published + pending;
      out := Returned(());
    }
  }
}
