/** `run_with_retries` (app/retry.py): call a unit of work at most
    `max_retries + 1` times, stop at the first success, after a failure that
    is the last allowed attempt or that the retry predicate refuses, and
    otherwise sleep `backoff * attempt` before the next attempt.

    The unit of work is a script: `work(k)` is what the k-th call (1-based)
    returns or raises. Sleeping is recorded in a log of delays; no time
    passes. */
module RetryExecutor {
  import opened Builtins

  /** How a call of `run_with_retries` ends. */
  datatype RetryResult<+T> =
    | Success(value: T)
      /** `RetryExhaustedError(str(last_error))` */
    | Exhausted(message: string)
      /** an exception other than `RetryExhaustedError` escaping the loop:
          `time.sleep` refusing a negative delay */
    | Escaped(error: Error)

  /** What `time.sleep` raises for a negative delay. */
  const NegativeSleep := Other("sleep length must be non-negative")

  /** `str(None)`: the message when no attempt ran at all. */
  const NoErrorText := "None"

  /** A complete run: how it ended, how many calls were made, what
      `on_attempt_failure` received (attempt number and exception), and the
      delays passed to `time.sleep`, in order. */
  datatype Trace<+T> = Trace(result: RetryResult<T>, calls: nat, failures: seq<(nat, Error)>, sleeps: seq<int>)

  /** `True if should_retry is None else should_retry(exc)` */
  function ShouldRetry(policy: Option<Error -> bool>, e: Error): bool {
    if policy.None? then true else policy.value(e)
  }

  /** A predicate that allows every retry. */
  function AlwaysRetry(e: Error): bool { true }

  /** The loop from attempt `k` on, given the failures and sleeps so far. */
  function RetryFrom<T>(work: nat -> Outcome<T>, maxRetries: int, backoff: int, policy: Option<Error -> bool>,
                        k: nat, failures: seq<(nat, Error)>, sleeps: seq<int>): (r: Trace<T>)
    requires 1 <= k <= maxRetries + 1
    decreases maxRetries + 1 - k
  {
    match work(k)
    case Returned(v) => Trace(Success(v), k, failures, sleeps)
    case Raised(e) =>
      var failures' := failures + [(k, e)];
      if k > maxRetries || !ShouldRetry(policy, e) then Trace(Exhausted(Str(e)), k, failures', sleeps)
      else if backoff * k < 0 then Trace(Escaped(NegativeSleep), k, failures', sleeps)
      else RetryFrom(work, maxRetries, backoff, policy, k + 1, failures', sleeps + [backoff * k])
  }

  /** `run_with_retries(fn, max_retries, backoff_seconds, on_attempt_failure, should_retry)` as a value. */
  function Retry<T>(work: nat -> Outcome<T>, maxRetries: int, backoff: int, policy: Option<Error -> bool>): Trace<T> {
    if maxRetries < 0 then Trace(Exhausted(NoErrorText), 0, [], [])
    else RetryFrom(work, maxRetries, backoff, policy, 1, [], [])
  }

  /** The calls of every run from attempt `k` on: they are `k` up to
      `r.calls`, all within the limit; every call before the last failed
      with an error the predicate allowed to retry, and the last call
      decides the result. */
  lemma {:induction false} RetryFromCalls<T>(work: nat -> Outcome<T>, maxRetries: int, backoff: int,
                                             policy: Option<Error -> bool>, k: nat,
                                             failures: seq<(nat, Error)>, sleeps: seq<int>)
    requires 1 <= k <= maxRetries + 1
    ensures var r := RetryFrom(work, maxRetries, backoff, policy, k, failures, sleeps);
      && k <= r.calls <= maxRetries + 1
      && (forall i :: k <= i < r.calls ==> work(i).Raised? && ShouldRetry(policy, work(i).error))
      && (r.result.Success? <==> work(r.calls).Returned?)
      && (r.result.Success? ==> r.result.value == work(r.calls).value)
      && (r.result.Exhausted? ==>
            && r.result.message == Str(work(r.calls).error)
            && (r.calls == maxRetries + 1 || !ShouldRetry(policy, work(r.calls).error)))
      && (r.result.Escaped? ==>
            r.result.error == NegativeSleep && backoff < 0
            && r.calls <= maxRetries && ShouldRetry(policy, work(r.calls).error))
    decreases maxRetries + 1 - k
  {
    if work(k).Raised? && k <= maxRetries && ShouldRetry(policy, work(k).error) && backoff * k >= 0 {
      RetryFromCalls(work, maxRetries, backoff, policy, k + 1, failures + [(k, work(k).error)], sleeps + [backoff * k]);
    }
  }

  /** Every failed call from attempt `k` on is logged once, in order, with
      its number and its error, after the entries already logged. */
  lemma {:induction false} RetryFromFailures<T>(work: nat -> Outcome<T>, maxRetries: int, backoff: int,
                                                policy: Option<Error -> bool>, k: nat,
                                                failures: seq<(nat, Error)>, sleeps: seq<int>)
    requires 1 <= k <= maxRetries + 1
    ensures var r := RetryFrom(work, maxRetries, backoff, policy, k, failures, sleeps);
      && k <= r.calls
      && |r.failures| == |failures| + r.calls - k + (if work(r.calls).Returned? then 0 else 1)
      && r.failures[..|failures|] == failures
      && (forall i :: k <= i <= r.calls && work(i).Raised? ==> r.failures[|failures| + i - k] == (i, work(i).error))
    decreases maxRetries + 1 - k
  {
    if work(k).Raised? && k <= maxRetries && ShouldRetry(policy, work(k).error) && backoff * k >= 0 {
      var failures', sleeps' := failures + [(k, work(k).error)], sleeps + [backoff * k];
      RetryFromFailures(work, maxRetries, backoff, policy, k + 1, failures', sleeps');
      var r := RetryFrom(work, maxRetries, backoff, policy, k + 1, failures', sleeps');
      assert RetryFrom(work, maxRetries, backoff, policy, k, failures, sleeps) == r;
      assert r.failures[..|failures|] == r.failures[..|failures'|][..|failures|];
      forall i | k <= i <= r.calls && work(i).Raised?
        ensures r.failures[|failures| + i - k] == (i, work(i).error)
      {
        if i == k {
          assert r.failures[|failures|] == r.failures[..|failures'|][|failures|];
        } else {
          assert |failures'| + i - (k + 1) == |failures| + i - k;
        }
      }
    }
  }

  /** Every retry from attempt `k` on sleeps `backoff` times the number of
      the attempt that failed, after the delays already logged. */
  lemma {:induction false} RetryFromSleeps<T>(work: nat -> Outcome<T>, maxRetries: int, backoff: int,
                                              policy: Option<Error -> bool>, k: nat,
                                              failures: seq<(nat, Error)>, sleeps: seq<int>)
    requires 1 <= k <= maxRetries + 1
    ensures var r := RetryFrom(work, maxRetries, backoff, policy, k, failures, sleeps);
      && k <= r.calls
      && |r.sleeps| == |sleeps| + r.calls - k
      && r.sleeps[..|sleeps|] == sleeps
      && (forall i :: k <= i < r.calls ==> r.sleeps[|sleeps| + i - k] == backoff * i)
    decreases maxRetries + 1 - k
  {
    if work(k).Raised? && k <= maxRetries && ShouldRetry(policy, work(k).error) && backoff * k >= 0 {
      var sleeps' := sleeps + [backoff * k];
      RetryFromSleeps(work, maxRetries, backoff, policy, k + 1, failures + [(k, work(k).error)], sleeps');
      var r := RetryFrom(work, maxRetries, backoff, policy, k + 1, failures + [(k, work(k).error)], sleeps');
      assert r.sleeps[..|sleeps|] == r.sleeps[..|sleeps'|][..|sleeps|];
      assert r.sleeps[|sleeps|] == r.sleeps[..|sleeps'|][|sleeps|];
    }
  }

  /** `fn` runs at most `max_retries + 1` times, at least once when
      `max_retries >= 0`, and not at all otherwise; every call before the
      last failed and was allowed a retry. */
  lemma RetryCallBounds<T>(work: nat -> Outcome<T>, maxRetries: int, backoff: int, policy: Option<Error -> bool>)
    ensures var r := Retry(work, maxRetries, backoff, policy);
      && (maxRetries < 0 ==> r.calls == 0 && r.result == Exhausted(NoErrorText) && r.failures == [] && r.sleeps == [])
      && (maxRetries >= 0 ==> 1 <= r.calls <= maxRetries + 1)
      && (forall i :: 1 <= i < r.calls ==> work(i).Raised? && ShouldRetry(policy, work(i).error))
  {
    if maxRetries >= 0 {
      RetryFromCalls(work, maxRetries, backoff, policy, 1, [], []);
    }
  }

  /** The result is a success exactly when the last call returned, and it
      is that call's value; no call follows a successful one. */
  lemma RetryReturnsFirstSuccess<T>(work: nat -> Outcome<T>, maxRetries: int, backoff: int,
                                    policy: Option<Error -> bool>, j: nat)
    requires 1 <= j <= maxRetries + 1 && work(j).Returned?
    requires forall i :: 1 <= i < j ==> work(i).Raised? && ShouldRetry(policy, work(i).error)
    requires backoff >= 0
    ensures Retry(work, maxRetries, backoff, policy).result == Success(work(j).value)
    ensures Retry(work, maxRetries, backoff, policy).calls == j
  {
    RetryFromCalls(work, maxRetries, backoff, policy, 1, [], []);
  }

  /** The loop stops after a failure only when that attempt was the last
      allowed or the predicate refused a retry; the error it reports is the
      last failure's. */
  lemma RetryExhaustion<T>(work: nat -> Outcome<T>, maxRetries: int, backoff: int, policy: Option<Error -> bool>)
    requires maxRetries >= 0
    ensures var r := Retry(work, maxRetries, backoff, policy);
      r.result.Exhausted? ==>
        && work(r.calls).Raised?
        && r.result.message == Str(work(r.calls).error)
        && (r.calls == maxRetries + 1 || !ShouldRetry(policy, work(r.calls).error))
        && |r.failures| >= 1 && r.failures[|r.failures| - 1] == (r.calls, work(r.calls).error)
  {
    RetryFromCalls(work, maxRetries, backoff, policy, 1, [], []);
    RetryFromFailures(work, maxRetries, backoff, policy, 1, [], []);
  }

  /** `on_attempt_failure` sees each failed attempt once, in order, with its
      1-based number; the delays grow linearly, `backoff * k` after attempt k. */
  lemma RetryLogs<T>(work: nat -> Outcome<T>, maxRetries: int, backoff: int, policy: Option<Error -> bool>)
    requires maxRetries >= 0
    ensures var r := Retry(work, maxRetries, backoff, policy);
      && |r.failures| == (if r.result.Success? then r.calls - 1 else r.calls)
      && (forall i :: 0 <= i < |r.failures| ==> work(i + 1).Raised? && r.failures[i] == (i + 1, work(i + 1).error))
      && |r.sleeps| == r.calls - 1
      && (forall i :: 0 <= i < |r.sleeps| ==> r.sleeps[i] == backoff * (i + 1))
  {
    RetryFromCalls(work, maxRetries, backoff, policy, 1, [], []);
    RetryFromFailures(work, maxRetries, backoff, policy, 1, [], []);
    RetryFromSleeps(work, maxRetries, backoff, policy, 1, [], []);
    var r := Retry(work, maxRetries, backoff, policy);
    forall i | 0 <= i < |r.failures| ensures work(i + 1).Raised? && r.failures[i] == (i + 1, work(i + 1).error) {
      assert 1 <= i + 1 <= r.calls;
    }
  }

  /** A first failure the predicate refuses ends the run after one call, and
      it still ends in `RetryExhaustedError`. */
  lemma RetryRefusedAfterOneCall<T>(work: nat -> Outcome<T>, maxRetries: int, backoff: int,
                                    policy: Option<Error -> bool>)
    requires maxRetries >= 0 && work(1).Raised? && !ShouldRetry(policy, work(1).error)
    ensures Retry(work, maxRetries, backoff, policy) == Trace(Exhausted(Str(work(1).error)), 1, [(1, work(1).error)], [])
  {
  }

  /** A unit of work that always fails with retryable errors is called
      exactly `max_retries + 1` times, and the last error is reported. */
  lemma RetryAlwaysFailing<T>(work: nat -> Outcome<T>, maxRetries: int, backoff: int, policy: Option<Error -> bool>)
    requires maxRetries >= 0 && backoff >= 0
    requires forall i :: 1 <= i <= maxRetries + 1 ==> work(i).Raised? && ShouldRetry(policy, work(i).error)
    ensures Retry(work, maxRetries, backoff, policy).calls == maxRetries + 1
    ensures Retry(work, maxRetries, backoff, policy).result == Exhausted(Str(work(maxRetries + 1).error))
  {
    RetryFromCalls(work, maxRetries, backoff, policy, 1, [], []);
  }

  /** Leaving out `should_retry` is the same as passing a predicate that
      always allows a retry. */
  lemma {:induction false} NoPolicyRetriesEverything<T>(work: nat -> Outcome<T>, maxRetries: int, backoff: int)
    ensures Retry(work, maxRetries, backoff, None) == Retry(work, maxRetries, backoff, Some(AlwaysRetry))
  {
    if maxRetries >= 0 {
      NoPolicyFrom(work, maxRetries, backoff, 1, [], []);
    }
  }

  lemma {:induction false} NoPolicyFrom<T>(work: nat -> Outcome<T>, maxRetries: int, backoff: int,
                                          k: nat, failures: seq<(nat, Error)>, sleeps: seq<int>)
    requires 1 <= k <= maxRetries + 1
    ensures RetryFrom(work, maxRetries, backoff, None, k, failures, sleeps)
         == RetryFrom(work, maxRetries, backoff, Some(AlwaysRetry), k, failures, sleeps)
    decreases maxRetries + 1 - k
  {
    if work(k).Raised? && k <= maxRetries && backoff * k >= 0 {
      NoPolicyFrom(work, maxRetries, backoff, k + 1, failures + [(k, work(k).error)], sleeps + [backoff * k]);
    }
  }

  /** `run_with_retries` */
  method RunWithRetries<T>(work: nat -> Outcome<T>, maxRetries: int, backoff: int, policy: Option<Error -> bool>)
    returns (result: RetryResult<T>, calls: nat, failures: seq<(nat, Error)>, sleeps: seq<int>)
    ensures Trace(result, calls, failures, sleeps) == Retry(work, maxRetries, backoff, policy)
  {
    var lastError: Option<Error> := None;
    calls, failures, sleeps := 0, [], [];
    var attempt := 1;
    while attempt < maxRetries + 2
      invariant 1 <= attempt <= maxRetries + 1 || (attempt == 1 && maxRetries < 0)
      invariant calls == attempt - 1 && (attempt == 1 ==> lastError == None && failures == [] && sleeps == [])
      invariant maxRetries >= 0 ==> Retry(work, maxRetries, backoff, policy) == RetryFrom(work, maxRetries, backoff, policy, attempt, failures, sleeps)
      decreases maxRetries + 2 - attempt
    {
      calls := calls + 1;
      var outcome := work(attempt);
      if outcome.Returned? {
        result := Success(outcome.value);
        return;
      }
      var exc := outcome.error;
      lastError := Some(exc);
      failures := failures + [(attempt, exc)];
      var retryAllowed := ShouldRetry(policy, exc);
      if attempt > maxRetries || !retryAllowed {
        break;
      }
      if backoff * attempt < 0 {
        result := Escaped(NegativeSleep);
        return;
      }
      sleeps := sleeps + [backoff * attempt];
      attempt := attempt + 1;
    }
    result := Exhausted(if lastError.Some? then Str(lastError.value) else NoErrorText);
  }
}
