# flowledger run ledger — a Dafny model

flowledger runs a daily batch pipeline over one file of JSON records per run
date. It has four steps: `ingest`, `transform`, `validate` and
`publish_report`. Every run is recorded in a SQL ledger. A run is identified
by its `run_key`. Asking again for a key whose run did not fail reuses the
stored run. Asking again for a key whose run failed resets that run and
executes it again under the same id. Every try of every step is stored as a
numbered attempt row. Failed steps are retried with a linear backoff, except
a missing or unparsable input file, which is never retried. Valid records
are stored as published records. A key the run has already published is
skipped; two valid records with the same new key in one batch make the
commit fail. Invalid records are stored as dead letters.

The model has seven modules, one file each:

- `Builtins` (builtins.dfy): the Python built-ins the steps rely on. It holds
  the exceptions as values (`Error`) and a call that returns or raises
  (`Outcome`). It also models `str.strip`, `str.lower` and `int()` of a
  string over ASCII whitespace and letters, and the part of
  `pathlib.PurePosixPath` that builds the report path.
- `Schemas` (schemas.dfy): the record shapes passed between the steps.
- `Entities` (entities.dfy): the four ledger tables of `app/db_models.py`.
  It covers their column defaults, their unique constraints, and what a
  cascading delete of a run removes.
- `RetryExecutor` (retry.dfy): `run_with_retries`. The spec function
  `Retry` produces a complete trace: the result, the number of calls, the
  failure callback's log and the sleeps. The method `RunWithRetries` is the
  loop, proved equal to that trace.
- `RunStore` (run_store.dfy): every function of `app/run_store.py`. Each is
  a function on a ledger value `Db` with a specification lemma. Each is also
  a method of the class `Ledger`, whose fields the method updates in place.
  Every `Ledger` method ensures that its new state is the function applied
  to the old state.
- `StepLogic` (step_logic.dfy): `transform_records` and `validate_records`.
  Each is a spec function (`Transformed`, `Partition`) plus a loop method
  proved equal to it.
- `Pipeline` (pipeline.dfy): `PipelineRunner`. `Execute` is `run` as a
  value. The lemmas about `Execute` state what `run` promises. The class
  `PipelineRunner` holds the methods `Run`, `RunSteps`, `RunStep`,
  `RetryStep` and `ExecuteOnce`, each proved equal to its spec function.

Calls the model cannot see become parameters. The k-th call of the ingest
step body and of the report writer is given by the oracles
`Oracles.ingest(k)` and `Oracles.publishOutputs(k)`. The clock is a logical
counter in the ledger, and each `utc_now()` reads it and advances it by one.

## Model

| member | source | states |
|---|---|---|
| Builtins.Strip | app/step_logic.py:26-30 | `str.strip()`: the text with ASCII `isspace()` whitespace, the information separators included, cut from both ends. Its contract is `Builtins.StripCharacterised`. |
| Builtins.TrimCharacterised | app/step_logic.py:26-30 | Cutting a set of characters from both ends gives exactly the infix of the text that neither starts nor ends with one of them and has only such characters on either side. |
| Builtins.StripCharacterised | app/step_logic.py:26-30 | A string is what `strip()` returns exactly when it is an infix of the input, with only whitespace cut on either side and no whitespace left at either end. |
| Builtins.StripIdempotent | app/step_logic.py:41-43 | Stripping an already stripped string changes nothing, so the validator's second `strip()` of transformed fields is a no-op. |
| Builtins.StripEmptyIffAllSpace | app/step_logic.py:53-58 | A field strips to the empty string exactly when it is all whitespace. These are the fields the "required" rules reject. |
| Builtins.StripLowerCommute | app/step_logic.py:28-30 | `strip()` then `lower()` equals `lower()` then `strip()`. |
| Builtins.Lower | app/step_logic.py:28-30 | `str.lower()` on ASCII letters. Its contract is `Builtins.LowerSpec`. |
| Builtins.LowerSpec | app/step_logic.py:28-30 | Lower-casing keeps the length, leaves no upper-case ASCII letter and changes no other character. |
| Builtins.ParseInt | app/step_logic.py:46-48 | `int()` of a string: whitespace `int()` skips (tab, line feed, vertical tab, form feed, carriage return, space), an optional sign, and a numeral of ASCII digits with single underscores between digits and at most 4300 digits. Anything else is a `ValueError`. Its contracts are the three lemmas below. |
| Builtins.ParseShowRoundTrip | app/step_logic.py:46-48 | `int()` of the decimal text of any integer n of at most 4300 digits, with any whitespace `int()` skips around it, gives back n. |
| Builtins.ParseIntRejectsSeparator | app/step_logic.py:41-48 | An information separator (0x1C to 0x1F) is whitespace to `strip()` but not to `int()`: a string that starts with one is not an integer. |
| Builtins.ParseIntDigitLimit | app/step_logic.py:46-48 | A numeral of more than 4300 digits is a `ValueError` (the default `sys.get_int_max_str_digits()`). |
| Builtins.ParseTwoNames | app/pipeline.py:193-194 | `PurePosixPath` reads "a/b", "a//b" and "a/./b" as the same relative path of the two parts a and b. |
| Entities.NewRun | app/db_models.py:15-28 | A freshly inserted run is queued, has no completion time, no error and zero counts, has `started_at` equal to now, and carries the given id, key, date and trigger. |
| Entities.NewStepRun | app/db_models.py:34-46 | A freshly inserted step attempt is started, with no completion time, duration or error, `started_at` equal to now, and the given run, step name and attempt number. |
| Entities.RowsOf | app/db_models.py:30 | A run's `steps` relationship holds exactly the attempt rows whose `run_id` is that run. |
| Entities.WithoutChildrenKeepsConstraints | app/run_store.py:37-39 | Deleting one run's steps, dead letters and published records keeps every unique constraint and the primary keys. |
| Entities.DeleteRun | app/db_models.py:30-31 | Deleting a run removes that run and its steps and dead letters (ORM cascade). It removes its published records only when the database enforces `ondelete="CASCADE"`. |
| Entities.DeleteRunKeepsReferences | app/db_models.py:39 | With database cascades, deleting a run leaves no child row pointing at a missing run. |
| Entities.DeleteRunOrphansPublished | app/db_models.py:63-70 | `PublishedRecord` has no relationship to its run. Without database cascades, a deleted run's published rows stay behind and point at no run. |
| Entities.DeadLettersMayRepeat | app/db_models.py:51-60 | Dead letters carry no unique constraint. Two identical dead-letter rows break no constraint. |
| RunStore.RunByKey | app/run_store.py:14-16 | A run is found exactly when some run holds the key, and the run found is the stored row with that key. |
| RunStore.CreateOrGetSpec | app/run_store.py:19-33 | `created` holds exactly when the key was absent. An absent key adds one pristine run under a fresh id with the given key, date and trigger. A present key changes no table and returns the stored run. Either way the key then names the returned run and the constraints hold. |
| RunStore.CreateOrGetIdempotent | app/run_store.py:19-33 | A second call with the same key creates nothing, changes no table and returns the first call's run, whatever date and trigger it passes. |
| RunStore.CreateOrGet | app/run_store.py:19-33 | `create_or_get_run`. Its contract is `RunStore.CreateOrGetSpec`. |
| RunStore.ResetRunIsNew | app/run_store.py:41-46 | A reset run row equals the row an insert of the same id, key, date and trigger at the run's original start time would produce. |
| RunStore.Reset | app/run_store.py:36-47 | `reset_failed_run_state`. Its contract is `RunStore.ResetSpec`. |
| RunStore.MarkRunning | app/run_store.py:50-54 | `mark_run_running`. Its contract is `RunStore.MarkRunningSpec`. |
| RunStore.MarkSucceeded | app/run_store.py:57-71 | `mark_run_succeeded`. Its contract is `RunStore.MarkSucceededSpec`. |
| RunStore.MarkFailed | app/run_store.py:74-89 | `mark_run_failed`. Its contract is `RunStore.MarkFailedSpec`. |
| RunStore.CreateStep | app/run_store.py:92-97 | `create_step_attempt`. Its contract is `RunStore.CreateStepSpec`. |
| RunStore.FinishSuccess | app/run_store.py:100-106 | `finish_step_success`. Its contract is `RunStore.FinishSuccessSpec`. |
| RunStore.FinishFailure | app/run_store.py:109-115 | `finish_step_failure`. Its contract is `RunStore.FinishFailureSpec`. |
| RunStore.StoreDeadLetterRows | app/run_store.py:118-128 | `store_dead_letters`. Its contract is `RunStore.StoreDeadLettersSpec`. |
| RunStore.PublishPlan | app/run_store.py:132-140 | The rows `store_published_records` adds. Its contract is `RunStore.PublishPlanSpec`. |
| RunStore.StorePublished | app/run_store.py:131-141 | `store_published_records`. Its contract is `RunStore.StorePublishedSpec`. |
| RunStore.ResetSpec | app/run_store.py:36-47 | A reset removes exactly the run's steps, dead letters and published records. It keeps all other rows and every other run, resets the run row, and keeps the constraints. |
| RunStore.MarkRunningSpec | app/run_store.py:50-54 | Only the run's row changes: its status is running, `started_at` is now and its error is cleared. Counts, completion time and identity are kept. |
| RunStore.MarkSucceededSpec | app/run_store.py:57-71 | Only the run's row changes: its status is succeeded, the given counts are stored, the error is cleared and `completed_at` is now. |
| RunStore.MarkFailedSpec | app/run_store.py:74-89 | Only the run's row changes: its status is failed, with the given error and counts (zero by default) and `completed_at` equal to now. |
| RunStore.CreateStepSpec | app/run_store.py:92-97 | An unused (run, step, attempt) triple appends exactly one started row with a fresh id. A used triple breaks `uq_step_attempt`: it changes no table and raises. |
| RunStore.FinishSuccessSpec | app/run_store.py:100-106 | Only that attempt row changes: its status is succeeded, its error is cleared, `completed_at` is now and the duration is the time since it started, positive on the logical clock. |
| RunStore.FinishFailureSpec | app/run_store.py:109-115 | Only that attempt row changes: its status is failed with the given error, `completed_at` is now and the duration is the time since it started, positive on the logical clock. |
| RunStore.StoreDeadLettersSpec | app/run_store.py:118-128 | Exactly one dead letter is appended per invalid record, in order, with its index, record and reason. Nothing else changes. |
| RunStore.PublishPlanSpec | app/run_store.py:132-140 | The rows to insert are exactly, in input order, one row per record whose key the run had not published, carrying that record and its key (indexed through `AbsentPositions`). No row reuses a published key, and an all-published batch inserts nothing. |
| RunStore.AbsentPositions | app/run_store.py:135-139 | The positions of the records the loop does not skip. Its contract is `RunStore.AbsentPositionsSpec`. |
| RunStore.AbsentPositionsSpec | app/run_store.py:135-139 | The positions ascend, and a position is listed exactly when its record's key was not published before the loop. |
| RunStore.StorePublishedCommits | app/run_store.py:131-141 | The commit succeeds exactly when no two records share a key the run had not published. Then the published records gain exactly the planned rows after the existing ones. |
| RunStore.NewKeysDistinctPlan | app/run_store.py:135-140 | When the new keys of a batch are distinct, the rows to insert have distinct keys. |
| RunStore.AppendNewKeys | app/db_models.py:65 | Adding rows whose keys the run has not published keeps `uq_run_record_key` exactly when those rows have distinct keys among themselves. |
| RunStore.StorePublishedSpec | app/run_store.py:131-141 | The commit succeeds exactly when the planned rows have distinct keys. It then appends exactly those rows. Otherwise it raises and nothing changes. |
| RunStore.RepublishIsNoOp | app/run_store.py:137-139 | A batch whose new keys are distinct is stored, and publishing it again adds nothing and succeeds. |
| RunStore.DuplicateKeysInBatchFail | app/run_store.py:132-141 | Two records in one batch with the same new key are not deduplicated: the commit raises and nothing is stored. |
| RunStore.Ledger.UtcNow | app/run_store.py:10-11 | Returns the current clock reading and advances the clock. No table changes. |
| RunStore.Ledger.CreateOrGetRun | app/run_store.py:19-33 | The new ledger state and the returned run and flag are those of `CreateOrGet`. |
| RunStore.Ledger.ResetFailedRunState | app/run_store.py:36-47 | The new ledger state is `Reset` of the old one. |
| RunStore.Ledger.MarkRunRunning | app/run_store.py:50-54 | The new ledger state is `MarkRunning` of the old one. |
| RunStore.Ledger.MarkRunSucceeded | app/run_store.py:57-71 | The new ledger state is `MarkSucceeded` of the old one. |
| RunStore.Ledger.MarkRunFailed | app/run_store.py:74-89 | The new ledger state is `MarkFailed` of the old one. |
| RunStore.Ledger.CreateStepAttempt | app/run_store.py:92-97 | The new ledger state and the returned row (or the conflict) are those of `CreateStep`. |
| RunStore.Ledger.FinishStepSuccess | app/run_store.py:100-106 | The new ledger state is `FinishSuccess` of the old one. |
| RunStore.Ledger.FinishStepFailure | app/run_store.py:109-115 | The new ledger state is `FinishFailure` of the old one. |
| RunStore.Ledger.StoreDeadLetters | app/run_store.py:118-128 | The loop appends the rows `StoreDeadLetterRows` describes. |
| RunStore.Ledger.StorePublishedRecords | app/run_store.py:131-141 | The loop over the batch, checked against the key snapshot taken before it, gives the state and outcome of `StorePublished`. |
| RetryExecutor.RetryFrom | app/retry.py:19-32 | The loop of `run_with_retries` from attempt k on, as a trace. Its contracts are the three `RetryFrom…` lemmas. |
| RetryExecutor.Retry | app/retry.py:9-32 | `run_with_retries` from attempt 1. Its contracts are the lemmas below. |
| RetryExecutor.RetryFromCalls | app/retry.py:19-29 | From attempt k on, calls run from k up to at most `max_retries + 1`. Every call before the last failed with a retryable error. The last call decides the result: its value, its error text after the last allowed or a refused retry, or the sleep's error for a negative delay. |
| RetryExecutor.RetryFromFailures | app/retry.py:22-25 | From attempt k on, every failed call is passed to `on_attempt_failure` once, in order, with its number and its error, after the entries already logged. |
| RetryExecutor.RetryFromSleeps | app/retry.py:30 | From attempt k on, each retry after attempt i sleeps `backoff * i`, in order. |
| RetryExecutor.RetryCallBounds | app/retry.py:19 | `fn` runs between 1 and `max_retries + 1` times. With `max_retries < 0` it never runs and the error raised says "None". |
| RetryExecutor.RetryReturnsFirstSuccess | app/retry.py:20-21 | When the calls before call j all failed retryably and call j returns, the result is call j's value after exactly j calls. |
| RetryExecutor.RetryExhaustion | app/retry.py:27-32 | An exhausted result carries the last error's text. It happens only after the last allowed attempt or a refused retry, and that failure is the last one logged. |
| RetryExecutor.RetryLogs | app/retry.py:22-30 | The failure log holds each failed attempt once, numbered from 1. The sleeps are `backoff * 1`, `backoff * 2`, and so on, one fewer than the calls. |
| RetryExecutor.RetryRefusedAfterOneCall | app/retry.py:27-29 | A first failure that `should_retry` refuses ends the run after one call, with no sleep and with `RetryExhaustedError`. |
| RetryExecutor.RetryAlwaysFailing | app/retry.py:19-32 | A unit of work that always fails retryably runs `max_retries + 1` times and reports the last error. |
| RetryExecutor.NoPolicyRetriesEverything | app/retry.py:27 | Omitting `should_retry` behaves exactly like a predicate that always allows a retry. |
| RetryExecutor.RunWithRetries | app/retry.py:9-32 | The loop's result, call count, failure log and sleeps are exactly the trace of `Retry`. |
| StepLogic.Normalize | app/step_logic.py:24-31 | One record of `transform_records`. Its contract is `StepLogic.NormalizeSpec`. |
| StepLogic.NormalizeSpec | app/step_logic.py:24-31 | Every text field of a transformed record is present and is what `strip()` leaves of the input's value ("" when absent). `email` and `source` are stripped from the lower-cased value. An absent `source` becomes "unknown". `age` is kept. The result is stripped and lower-cased where it should be, and transforming it again changes nothing. |
| StepLogic.Transformed | app/step_logic.py:21-33 | `transform_records`. Its contract is `StepLogic.TransformedSpec`. |
| StepLogic.TransformedSpec | app/step_logic.py:21-33 | There is one transformed record per input, in order, and the i-th is `Normalize` of the i-th input. The transform is idempotent. |
| StepLogic.TransformRecords | app/step_logic.py:21-33 | The loop returns `Transformed(records)`. |
| StepLogic.Check | app/step_logic.py:40-80 | One record of `validate_records`, accepted or rejected with a reason. Its contracts are `StepLogic.CheckRejectsFirstBrokenRule` and `StepLogic.AcceptedShape`. |
| StepLogic.FirstBrokenRule | app/step_logic.py:45-67 | The rule returned is broken and every rule before it holds. When none is returned, every rule holds. |
| StepLogic.CheckRejectsFirstBrokenRule | app/step_logic.py:40-67 | A record is rejected exactly when it breaks one of the five rules (integer age, key, name, e-mail, age range). The reason is that of the first rule it breaks. |
| StepLogic.AcceptedShape | app/step_logic.py:69-79 | An accepted record has a non-empty stripped key and name, an e-mail with '@' and '.', an age in 18..120 with its bracket, and the record's own values. Its `source` is not stripped. |
| StepLogic.PartitionSizes | app/step_logic.py:36-81 | Every input record lands in exactly one of the two lists. |
| StepLogic.PartitionInvalid | app/step_logic.py:40-67 | The invalid list holds exactly the rejected positions, in ascending order, each with its original record and its rejection reason. |
| StepLogic.Partition | app/step_logic.py:36-81 | `validate_records`. Its contracts are the `Partition…` lemmas. |
| StepLogic.Accepted | app/step_logic.py:69-80 | The accepted values of the records, in input order. Its contract is `StepLogic.PartitionAccepted`. |
| StepLogic.PartitionAccepted | app/step_logic.py:36-81 | The valid list is exactly the accepted records, in input order: the values `Check` accepts, one per accepted record. |
| StepLogic.PartitionValid | app/step_logic.py:69-80 | The valid list is exactly `Accepted` of the input. Every valid entry is what the check accepts for some input record, and is well formed. |
| StepLogic.ValidateRecords | app/step_logic.py:36-81 | The loop returns `Partition(records)`. |
| Pipeline.RetryableExactly | app/pipeline.py:144-148 | An error is not retried exactly when it is a missing or unparsable input file of the ingest step. The predicate given to the retry loop agrees. |
| Pipeline.IsRetryable | app/pipeline.py:144-148 | `_is_retryable`. Its contract is `Pipeline.RetryableExactly`. |
| Pipeline.MaxAttempt | app/pipeline.py:133-139 | The `max(attempt)` query of `_next_attempt`. Its contract is `Pipeline.MaxAttemptSpec`. |
| Pipeline.MaxAttemptSpec | app/pipeline.py:133-139 | The query finds no attempt exactly when the step has no row. Otherwise it finds the attempt number of one of its rows, at least that of every other. |
| Pipeline.NextAttempt | app/pipeline.py:132-142 | `_next_attempt`. Its contract is `Pipeline.NextAttemptSpec`. |
| Pipeline.NextAttemptSpec | app/pipeline.py:132-142 | The next attempt number is above every recorded attempt of the run's step. It is 1 when there is none and otherwise one more than a recorded one. |
| Pipeline.NextAttemptIsFree | app/pipeline.py:124 | The attempt number `_next_attempt` picks is never taken, so the attempt insert cannot break `uq_step_attempt`. |
| Pipeline.ReportPath | app/pipeline.py:193-194 | `_report_path`, through `PurePosixPath`. Its contracts are the three lemmas below. |
| Pipeline.ReportPathOfPlainKey | app/pipeline.py:193-194 | A key without a separator names the file `<key>.json` directly in the reports directory under `output_dir`. |
| Pipeline.ReportPathInjective | app/pipeline.py:193-194 | Different run keys without a separator get different report paths. |
| Pipeline.ReportPathCollision | app/pipeline.py:193-194 | Keys with separators can collide: "x/y", "x//y" and "x/./y" are three keys with one report path. |
| Pipeline.ResultFromRun | app/pipeline.py:196-208 | `_result_from_run`: the run's fields, the report path and the reuse flag. Its contracts are `Pipeline.ExecuteReuses` and `Pipeline.ExecuteEnds`. |
| Pipeline.TryOnce | app/pipeline.py:111-120 | One `execute_once` keeps the ledger constraints. It only appends step rows; runs, dead letters, published records and earlier attempts are untouched. |
| Pipeline.TryOnceRow | app/pipeline.py:111-120 | One try appends exactly one row: an attempt of the step numbered by `_next_attempt`, succeeded or failed with the error text as the body's call ended. The try's outcome is that call's. |
| Pipeline.StepFrom | app/pipeline.py:122-128 | The retry loop over `execute_once` from call k on. It keeps the ledger constraints and only appends step rows; `Pipeline.StepFromMatchesRetry` proves it ends as the `RetryFrom` trace of `run_with_retries` does, and `Pipeline.StepFromRows` that it appends one attempt row per call. |
| Pipeline.StepFromRows | app/pipeline.py:111-128 | From call k on, the loop appends one attempt row per call, in call order, numbered on from the step's next attempt and finished as each call ended. |
| Pipeline.StepFromMatchesRetry | app/pipeline.py:122-128 | From call k on, the loop ends with the result and call count of `run_with_retries` over the same calls with `_is_retryable`. |
| Pipeline.RunStepSpec | app/pipeline.py:110-130 | A whole step keeps the ledger constraints and only appends step rows. |
| Pipeline.RunStepMatchesRetry | app/pipeline.py:122-128 | A step's retry loop ends exactly as `run_with_retries` does over the same calls with `_is_retryable`, after as many calls. |
| Pipeline.RunStepRows | app/pipeline.py:110-124 | A step appends one attempt row per call, in call order, numbered on consecutively from the step's earlier attempts, each finished as its call ended. |
| Pipeline.StepAttemptsFromOne | app/pipeline.py:132-142 | A step with no attempt row yet numbers its attempts 1, 2, ... in call order. |
| Pipeline.AlwaysFailingStep | app/pipeline.py:122-130 | A step that always fails retryably leaves `max_step_retries + 1` failed attempt rows and ends exhausted with the last error. |
| Pipeline.StepEndsAtFirstTry | app/pipeline.py:122-128 | A step whose first call returns, or raises a non-retryable error, makes one call. It leaves one attempt row numbered by `_next_attempt` and finished as that call ended. |
| Pipeline.StepOutcome | app/pipeline.py:129-130 | What `_run_step` returns or raises: the value, `RetryExhaustedError` wrapped as "step '<name>' failed after retries: ...", or the escaped exception. Its contracts are `Pipeline.ExecuteStepsOutcome` and `Pipeline.PipelineRunner.RunStep`. |
| Pipeline.StepAppends | app/pipeline.py:110-124 | A step's rows are attempts of that step. A step that returned ends with a succeeded row. |
| Pipeline.StartRun | app/pipeline.py:46-55 | The reset, if any, then `mark_run_running`. Its contract is `Pipeline.StartRunSpec`. |
| Pipeline.StartRunSpec | app/pipeline.py:46-55 | Starting a run changes only its run row among the runs: it is running with no error, under the same id, key, date and trigger. A new run leaves the step, dead-letter and published tables as they were. A reset leaves exactly the child rows of the other runs, in their order, and no attempt row of its own. |
| Pipeline.ExecuteSteps | app/pipeline.py:61-106 | The `try` block of `run` and its `except`, with a refused commit rolled back (see Findings). Its contracts are the `ExecuteSteps…` lemmas; `Pipeline.ExecuteStepsOutcome` relates the run's status, error and counts to what each step returned or raised. |
| Pipeline.ExecuteStepsEnds | app/pipeline.py:61-106 | With every commit either applied or rolled back, the `try` block never leaves the run running. It ends succeeded, with no error and total = valid + invalid, or failed with an error. Other runs are unchanged and the constraints are kept. |
| Pipeline.StoreResults | app/pipeline.py:86-106 | The end of the `try` block, with a refused commit rolled back before `mark_run_failed` (see Findings). Its contracts are the two lemmas below. |
| Pipeline.StoreResultsKeeps | app/pipeline.py:86-95 | With a refused commit rolled back, storing results adds no attempt row and stores the total, valid and invalid counts whether or not the published records commit. |
| Pipeline.StoreResultsEnds | app/pipeline.py:86-106 | With a refused commit rolled back, storing results ends the run succeeded with no error, or failed with the refused commit's error. |
| Pipeline.StoreResultsAsWritten | app/pipeline.py:86-106 | The end of the `try` block as written: a refused commit of the published records makes `mark_run_failed` raise `PendingRollbackError`, which `run` propagates, and leaves the ledger as it was. |
| Pipeline.RefusedCommitStrandsRun | app/run_store.py:131-141 | For a batch with two valid records under one new key, the program as written raises and leaves the run `running`, and the next call for the key reuses it without running a step. With the rollback, the run is failed with the commit's error and the next call re-executes it. |
| Pipeline.InStepOrderSorted | app/pipeline.py:61-84 | In rows added step by step, no row of a later step comes before a row of an earlier one. |
| Pipeline.InStepOrderGated | app/pipeline.py:61-84 | Every row of a later step comes after a succeeded row of the step before it. |
| Pipeline.ExecuteStepsOrder | app/pipeline.py:61-95 | The `try` block adds rows of its own run only, in the order ingest, transform, validate, publish_report. Each step starts only after the previous one succeeded. |
| Pipeline.ExecuteStepsFirstTry | app/pipeline.py:61-95 | When ingest and the report return at their first call, the `try` block adds exactly four rows, one per step in order, each a succeeded attempt 1. It stores the ingested count and the validation split. |
| Pipeline.ExecuteStepsRefusedIngest | app/pipeline.py:61-106 | An ingest whose first call finds no file or bad JSON adds one failed ingest attempt 1. The run then fails with "step 'ingest' failed after retries: ..." and zero counts. |
| Pipeline.StartedKeeps | app/pipeline.py:40-55 | The started run holds the key and keeps every other run. It is either the run that held the key, or a new run under a fresh id with the requested date and trigger. |
| Pipeline.StartedFresh | app/pipeline.py:46-55 | A started run has no attempt row: a reset removed them, and a new run has none while child rows reference existing runs. |
| Pipeline.ExecuteStarts | app/pipeline.py:55-108 | For a new key or a failed run, `run` is the `try` block on the started run. Its result reports that run afterwards, not reused. |
| Pipeline.ExecuteReuses | app/pipeline.py:46-53 | A key whose run did not fail changes no table. The result repeats the stored id, date, trigger, status and counts, with the report path, marked reused. |
| Pipeline.Execute | app/pipeline.py:38-108 | `run` as a value, with a refused commit rolled back (see Findings). Its contracts are the `Execute…` lemmas; `Pipeline.ExecuteFirstTrySucceeds` states when it succeeds. |
| Pipeline.ExecuteEnds | app/pipeline.py:38-108 | With a refused commit rolled back, for a new key or a failed run, the key then names the reported run, which ended succeeded (no error, counts adding up) or failed (with an error). Other runs are unchanged. An existing run keeps its id, date and trigger, and a new run gets a fresh id. The result is `_result_from_run` of the stored row, not reused. |
| Pipeline.ExecuteTwice | app/pipeline.py:38-53 | After a run that did not fail, asking again for its key changes no table and returns the first result marked reused. |
| Pipeline.StoreResultsOutcome | app/pipeline.py:86-106 | Storing the results stores the counts, and ends the run succeeded exactly when the batch's new keys are distinct, otherwise failed with the refused commit's error. |
| Pipeline.AfterValidateOutcome | app/pipeline.py:79-106 | After validation the counts are stored whatever happens. A report step that raises, or runs out of tries, fails the run with its error. A report step that returns leaves the run to the storing of the results. |
| Pipeline.AfterTransformOutcome | app/pipeline.py:72-106 | With no tries allowed, validation fails the run with zero valid and invalid counts. Otherwise the run counts the validation split, succeeds only if the new valid keys are distinct, and ends as the store says when the report returns at once. |
| Pipeline.AfterIngestOutcome | app/pipeline.py:65-106 | With no tries allowed, transform fails the run with the ingested count. Otherwise the run counts the ingested records and their validation split, and succeeds only if the new valid keys are distinct. |
| Pipeline.ExecuteStepsOutcome | app/pipeline.py:61-106 | An ingest step that raises or runs out of tries fails the run with that error and zero counts. An ingest that returns records v sets the counts to the length of v and the sizes of the validation split of its transformed records. A succeeded run had ingest return and distinct new keys; with ingest and the report returning at their first call, distinct new keys suffice. |
| Pipeline.StartedUnpublished | app/pipeline.py:46-55 | A started run holds no published record: a new one has none, and the reset deleted those of a failed one. |
| Pipeline.ExecuteFirstTrySucceeds | app/pipeline.py:61-106 | When ingest and the report return at their first call, `run` succeeds exactly when the valid records have distinct keys. Otherwise it fails with the refused commit's error. |
| Pipeline.StoreResultsChildRows | app/pipeline.py:86-95 | Storing the results adds dead letters and published records of the run only, after the existing ones. |
| Pipeline.ExecuteStepsChildRows | app/pipeline.py:61-106 | The `try` block adds dead letters and published records of its own run only. |
| Pipeline.ReferencesAfterSteps | app/db_models.py:39-68 | Rows added for an existing run keep every child row pointing at a run. |
| Pipeline.FewerRowsReferences | app/run_store.py:36-53 | Keeping a subset of the child rows and at least the runs keeps every child row pointing at a run. |
| Pipeline.StartedReferences | app/pipeline.py:40-55 | Inserting or resetting the run and marking it running keeps every child row pointing at a run. |
| Pipeline.ExecuteKeepsReferences | app/pipeline.py:38-108 | `run` keeps every child row pointing at a run. |
| Pipeline.ExecuteConsistent | app/pipeline.py:38-108 | `run` keeps the ledger constraints. |
| Pipeline.Replay | app/pipeline.py:38-108 | Calls of `run` one after the other keep the ledger constraints. |
| Pipeline.ReplayKeepsReferences | app/pipeline.py:38-108 | Calls of `run` one after the other keep every child row pointing at a run. |
| Pipeline.ReplayFromEmpty | app/pipeline.py:38-108 | Every ledger that calls of `run` build from an empty one is consistent, with every child row pointing at a run. |
| Pipeline.ExecuteOrder | app/pipeline.py:61-95 | After `run` executes the steps, the run's attempt rows are in step order, each step begun only after the one before succeeded. |
| Pipeline.ExecuteFirstTry | app/pipeline.py:61-95 | A new key, or a failed run re-executed, whose ingest and report return at their first call ends with exactly four attempt rows: one per step in order, each a succeeded attempt 1. The counts are those of the ingested records and their validation. |
| Pipeline.ExecuteRefusedIngest | app/pipeline.py:61-106 | A missing or malformed input file leaves exactly one attempt row, a failed ingest attempt 1 with the error text. The run fails with the step's message and zero counts. |
| Pipeline.PipelineRunner.ExecuteOnce | app/pipeline.py:111-120 | The ledger and outcome after `execute_once` are those of `TryOnce`. |
| Pipeline.PipelineRunner.RetryStep | app/pipeline.py:122-128 | The retry loop over `execute_once` yields the ledger and result of `RunStepSpec`. |
| Pipeline.PipelineRunner.RunStep | app/pipeline.py:110-130 | `_run_step` yields the ledger of `RunStepSpec`. It returns the value, raises the exhaustion wrapped as "step '<name>' failed after retries: ...", or raises the escaped exception. |
| Pipeline.PipelineRunner.RunSteps | app/pipeline.py:61-106 | The `try` block and its `except` produce the ledger of `ExecuteSteps`. |
| Pipeline.PipelineRunner.Run | app/pipeline.py:38-108 | `run` produces the ledger and result of `Execute`. |

## Left out

- File I/O and JSON are not modelled. `_ingest`, `ingest_records`, `_publish_outputs`, `write_json` and `write_jsonl` are the oracles `Oracles.ingest` and `Oracles.publishOutputs`: each states what the k-th call returns or raises. What the files contain is not modelled.
- Logging (`logger.info`, `logger.exception`) has no effect on state and is left out.
- Wall-clock time is a logical clock that each `utc_now()` reads and advances by one. `duration_ms` is a tick difference, not milliseconds.
- `retry_backoff_seconds` is an integer. The float product `backoff * attempt` and fractional sleeps are not modelled. A negative product raises the error `time.sleep` raises, and that error escapes `_run_step` unwrapped.
- Pipeline.PipelineRunner.RetryStep: does not keep the sleeps or a failure log, because `_run_step` passes no `on_attempt_failure` and sleeping changes no state. The delays are stated for `RetryExecutor.RunWithRetries`.
- `str.strip`, `str.lower` and `int()` are modelled for ASCII text. Unicode whitespace, Unicode digits and Unicode case mapping are not modelled. `int()` of a float is not modelled: a float, list or other age is the `AgeMissing` case. In particular `"age": Infinity`, which `json.loads` accepts, makes `int()` raise `OverflowError`, which `validate_records` does not catch (app/step_logic.py:47-49): there the validate step raises on every try and the run ends failed, while the model makes that record an `AgeMissing` dead letter. The digit limit is the default 4300 of `sys.set_int_max_str_digits`, which the program does not change.
- Input records are dictionaries with the five known keys. Each field is `str()` of its value, and other keys and non-object JSON lines are not modelled.
- `raw_record` and `payload` hold the record values rather than the `str()` text of the dictionaries.
- The text of SQLAlchemy `IntegrityError` messages is modelled by the two constants `StepAttemptConflict` and `PublishedKeyConflict`. `PendingRollback` holds only the first part of SQLAlchemy's `PendingRollbackError` text; the "Original exception was: ..." suffix quoting the `IntegrityError` is left out.
- String length limits (`String(32)`, `String(64)`, `String(128)`) are not enforced.
- The ids of dead-letter and published rows are not modelled, because nothing reads them.
- Sessions are modelled as one ledger in which every commit is applied whole or not at all. In the program, `run` uses one session. `create_or_get_run` rolls it back after a refused insert (app/run_store.py:26), but nothing rolls it back after the published-records commit is refused. After that refusal, that session raises `PendingRollbackError` at its next commit, inside `mark_run_failed`. `Pipeline.StoreResultsAsWritten` models that path and the Findings section states its effect. `Pipeline.StoreResults`, `Pipeline.ExecuteSteps` and `Pipeline.Execute`, with the lemmas about them, describe the run with the rollback in place. `create_or_get_run`'s insert race between concurrent sessions is an atomic insert-or-get. Concurrency is not modelled.
- Pipeline.ExecuteOrder: assumes for a new key that every child row points at a run (`ChildrenReferenceRuns`), because otherwise an orphaned attempt row could carry the fresh id. SQLite does not enforce this foreign key here, but `run` keeps it (`Pipeline.ExecuteKeepsReferences`) and every ledger built by `run` from an empty one has it (`Pipeline.ReplayFromEmpty`).
- Pipeline.ExecuteFirstTry: assumes the same of a new key, for the same reason as `Pipeline.ExecuteOrder`.
- Pipeline.ExecuteRefusedIngest: assumes the same of a new key, for the same reason as `Pipeline.ExecuteOrder`.
- Pipeline.ExecuteFirstTrySucceeds: assumes the same of a new key, because an orphaned published record could carry the fresh id.
- Pipeline.StartedFresh: assumes the same of a new key, for the same reason as `Pipeline.ExecuteOrder`.
- Pipeline.StartedUnpublished: assumes the same of a new key, for the same reason as `Pipeline.ExecuteFirstTrySucceeds`.
- Pipeline.PipelineRunner.RunSteps: computes `transform_records` and `validate_records` before their step's retry loop, not inside each try, because both are pure and cannot raise on the modelled records. They can raise on an input that is not modelled: an infinite age (see the `int()` line above).
- RunStore.FinishSuccessSpec: states a positive duration, which holds on the logical clock only. A wall clock that stands still or steps back gives zero or a negative duration.
- RunStore.FinishFailureSpec: states a positive duration, which holds on the logical clock only, as for `RunStore.FinishSuccessSpec`.
- Pipeline.ReportPathInjective: holds only for keys without "/", because `PurePosixPath` collapses "//" and "/./" inside a key (`Pipeline.ReportPathCollision`).
- `Path` is modelled as `PurePosixPath`. Windows paths are not modelled.
- `app/config.py`, `app/database.py`, `app/main.py` and the scheduler are not part of this model.

## Findings

| source | as written | input that shows it | evidently intended | confidence | as-written member | corrected member |
|---|---|---|---|---|---|---|
| app/pipeline.py:86-106 | When the commit in `store_published_records` (app/run_store.py:141) is refused, the shared session is left needing a rollback. The `except` block's `mark_run_failed` then commits on that session, which raises `PendingRollbackError`, so `run` raises. The run keeps the status `running` committed by `mark_run_running`, and every later call for its key reuses it (app/pipeline.py:46-53). | Two valid records with the same new `record_key` in one batch. | Roll the session back, then mark the run failed with the commit's error, so the next call for the key retries the run. | not executed | Pipeline.StoreResultsAsWritten, Pipeline.RefusedCommitStrandsRun | Pipeline.StoreResults |
