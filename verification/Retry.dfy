/** The two bounded retries of the database layer, on an ideal clock. */
module Retry {
  datatype Outcome<T, E> = Ok(value: T) | Err(error: E)

  // ----- the initial connect ---------------------------------------------------------------

  /** What the world does: the k-th call (from 1) has an outcome and takes some time, and the backoff
      drawn after the k-th failure is in milliseconds. */
  datatype World<T, E> = World(outcome: nat -> Outcome<T, E>, takes: nat -> real, draw: nat -> nat)

  function Base(failed: nat): nat {
    if failed <= 1 then 1000 else if failed == 2 then 2000 else if failed == 3 then 4000 else 8000
  }

  /** Calls take time, and draws come from the jitter range of `startup_connect_backoff`. */
  ghost predicate Possible<T(!new), E(!new)>(w: World<T, E>) {
    && (forall k :: w.takes(k) >= 0.0)
    && (forall k :: Base(k) / 2 <= w.draw(k) <= Base(k) + Base(k) / 2)
  }

  function Backoff<T, E>(w: World<T, E>, k: nat): real { w.draw(k) as real }

  /** When call `k` starts, if all calls before it are made. */
  function Start<T, E>(w: World<T, E>, k: nat): real
    requires k >= 1
  {
    if k == 1 then 0.0 else Start(w, k - 1) + w.takes(k - 1) + Backoff(w, k - 1)
  }

  /** Call `k` is the last. */
  ghost predicate Last<T, E>(w: World<T, E>, attempts: nat, deadline: real, k: nat)
    requires k >= 1
  {
    w.outcome(k).Ok? || k >= attempts || Start(w, k) + w.takes(k) + Backoff(w, k) >= deadline
  }

  /** Exactly `n` calls are made: call `n` is the first that is the last. */
  ghost predicate Makes<T, E>(w: World<T, E>, attempts: nat, deadline: real, n: nat) {
    n >= 1 && Last(w, attempts, deadline, n) && forall k :: 1 <= k < n ==> !Last(w, attempts, deadline, k)
  }

  /** Milliseconds slept between the first `n` calls. */
  function Slept<T, E>(w: World<T, E>, n: nat): nat {
    if n <= 1 then 0 else Slept(w, n - 1) + w.draw(n - 1)
  }

  /** What the retry leaves behind. */
  datatype Report<T, E> = Report(result: Outcome<T, E>, calls: nat, failures: nat, slept: nat)

  /** `retry_initial_connect` */
  method RetryInitialConnect<T(!new), E(!new)>(w: World<T, E>, attempts: nat, deadline: real) returns (r: Report<T, E>)
    ensures Makes(w, attempts, deadline, r.calls) && r.result == w.outcome(r.calls)
    ensures r.failures == r.calls - (if r.result.Ok? then 1 else 0)
    ensures r.slept == Slept(w, r.calls)
  {
    var now, attempt, failures, slept := 0.0, 1, 0, 0;
    while true
      invariant attempt >= 1 && now == Start(w, attempt) && failures == attempt - 1 && slept == Slept(w, attempt)
      invariant forall k :: 1 <= k < attempt ==> !Last(w, attempts, deadline, k)
      decreases attempts - attempt
    {
      var outcome := w.outcome(attempt);
      now := now + w.takes(attempt);
      if outcome.Ok? { return Report(outcome, attempt, failures, slept); }
      failures := failures + 1;
      var backoff := w.draw(attempt);
      if attempt >= attempts || now + backoff as real >= deadline { return Report(outcome, attempt, failures, slept); }
      now := now + backoff as real;
      slept := slept + backoff;
      attempt := attempt + 1;
    }
  }

  /** At most max(1, attempts) calls, each retry before the deadline, every call but the last a failure. */
  lemma RetryIsBounded<T(!new), E(!new)>(w: World<T, E>, attempts: nat, deadline: real, n: nat)
    requires Possible(w) && Makes(w, attempts, deadline, n)
    ensures n <= if attempts == 0 then 1 else attempts
    ensures forall k :: 1 < k <= n ==> Start(w, k) < deadline
    ensures forall k :: 1 <= k < n ==> w.outcome(k).Err?
    ensures Slept(w, n) as real <= Start(w, n) && (n > 1 ==> Slept(w, n) as real < deadline)
  {
    forall k | 1 < k <= n ensures Start(w, k) < deadline { assert !Last(w, attempts, deadline, k - 1); }
    forall k | 1 <= k < n ensures w.outcome(k).Err? { assert !Last(w, attempts, deadline, k); }
    if n > 1 { assert !Last(w, attempts, deadline, n - 1); }
    SleepsBeforeStart(w, n);
  }

  lemma {:induction false} SleepsBeforeStart<T(!new), E(!new)>(w: World<T, E>, n: nat)
    requires Possible(w) && n >= 1
    ensures Slept(w, n) as real <= Start(w, n)
  {
    if n > 1 { SleepsBeforeStart(w, n - 1); }
  }

  /** The number of calls is determined. */
  lemma CallsDetermined<T, E>(w: World<T, E>, attempts: nat, deadline: real, n: nat, m: nat)
    requires Makes(w, attempts, deadline, n) && Makes(w, attempts, deadline, m)
    ensures n == m
  {
    hide Last;
  }

  /** The unjittered backoff starts at one second, doubles three times, and stays at eight. */
  lemma BackoffDoubles(failed: nat)
    requires failed >= 1
    ensures Base(1) == 1000 && Base(failed + 1) == if failed < 4 then 2 * Base(failed) else 8000
  {
  }

  /** The backoffs of `n` >= 4 calls add up to 8n - 25 seconds, give or take half. */
  lemma {:induction false} SleepRange<T(!new), E(!new)>(w: World<T, E>, n: nat)
    requires Possible(w) && n >= 4
    ensures 500 * (8 * n - 25) <= Slept(w, n) <= 1500 * (8 * n - 25)
  {
    if n > 4 {
      SleepRange(w, n - 1);
      assert Base(n - 1) / 2 <= w.draw(n - 1) <= Base(n - 1) + Base(n - 1) / 2;
    } else {
      assert Slept(w, 4) == w.draw(1) + w.draw(2) + w.draw(3) by {
        assert Slept(w, 2) == w.draw(1) && Slept(w, 3) == Slept(w, 2) + w.draw(2);
      }
      assert Base(1) / 2 <= w.draw(1) && Base(2) / 2 <= w.draw(2) && Base(3) / 2 <= w.draw(3);
    }
  }

  // ----- deadlocks ---------------------------------------------------------------------------

  datatype TxOutcome<T, E> = Committed(value: T) | Deadlock(error: E) | Failed(error: E)

  const DEADLOCK_RETRY_ATTEMPTS: nat := 3

  /** `retry_on_deadlock`: the first outcome that is no deadlock, or the third one. */
  method RetryOnDeadlock<T, E>(op: nat -> TxOutcome<T, E>) returns (r: TxOutcome<T, E>, calls: nat)
    ensures 1 <= calls <= DEADLOCK_RETRY_ATTEMPTS && r == op(calls)
    ensures forall k :: 1 <= k < calls ==> op(k).Deadlock?
    ensures calls < DEADLOCK_RETRY_ATTEMPTS ==> !r.Deadlock?
  {
    for attempt := 1 to DEADLOCK_RETRY_ATTEMPTS
      invariant forall k :: 1 <= k < attempt ==> op(k).Deadlock?
    {
      var outcome := op(attempt);
      match outcome
      case Committed(_) => return outcome, attempt;
      case Deadlock(_) =>
      case Failed(_) => return outcome, attempt;
    }
    return op(DEADLOCK_RETRY_ATTEMPTS), DEADLOCK_RETRY_ATTEMPTS;
  }
}
