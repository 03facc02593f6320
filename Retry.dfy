/**
 * `retry_with_backoff` (utils/retry.py): call an operation up to `max_attempts` times, sleeping
 * `min(backoff_factor ** attempt, max_delay)` seconds after each failed attempt that raised one of
 * the retried exception classes, and re-raising the last such exception when attempts run out.
 *
 * The awaited operation becomes a function from the attempt number (1, 2, ...) to what that call
 * did; the sleeps are returned as the list of delays instead of being waited for.
 */
module Retry {

  /** A raised Python exception: the names of its class and all its base classes, and its message. */
  datatype PyException = PyException(mro: seq<string>, message: string)

  /** What one call of the operation did: returned a value or raised an exception. */
  datatype Outcome<T> = Returned(value: T) | Raised(error: PyException)

  /** `except exceptions as e`: the exception is an instance of one of the listed classes. */
  predicate IsCaught(e: PyException, exceptions: seq<string>) {
    exists i :: 0 <= i < |exceptions| && exceptions[i] in e.mro
  }

  /** The default tuple of retried classes, `(Exception,)`. */
  const DefaultExceptions: seq<string> := ["Exception"]

  /** The error raised when the loop runs no attempt at all. */
  const RetryLogicError: PyException :=
    PyException(["RuntimeError", "Exception", "BaseException", "object"],
                "Retry logic error: exhausted all attempts without raising")

  /** `b ** k` for a whole exponent. */
  function Pow(b: real, k: nat): real {
    if k == 0 then 1.0 else b * Pow(b, k - 1)
  }

  /** The delay after failed attempt `attempt`: `min(backoff_factor ** attempt, max_delay)`. */
  function Delay(backoffFactor: real, maxDelay: real, attempt: nat): real {
    var d := Pow(backoffFactor, attempt);
    if maxDelay < d then maxDelay else d
  }

  /** The delays slept after attempts 1 to `n`. */
  function Schedule(backoffFactor: real, maxDelay: real, n: nat): (s: seq<real>)
    ensures |s| == n && forall i :: 0 <= i < n ==> s[i] == Delay(backoffFactor, maxDelay, i + 1)
  {
    seq(n, i requires 0 <= i < n => Delay(backoffFactor, maxDelay, i + 1))
  }

  /**
   * `retry_with_backoff`. Returns what the last call did (or the retry-logic error when no attempt
   * is made), the number of calls made and the delays slept, in order.
   */
  method RetryWithBackoff<T>(call: nat -> Outcome<T>, maxAttempts: int, backoffFactor: real, maxDelay: real,
                             exceptions: seq<string>)
    returns (result: Outcome<T>, calls: nat, sleeps: seq<real>)
    ensures maxAttempts <= 0 ==> calls == 0 && result == Raised(RetryLogicError)
    ensures maxAttempts >= 1 ==> 1 <= calls <= maxAttempts && result == call(calls)
    ensures forall a :: 1 <= a < calls ==> call(a).Raised? && IsCaught(call(a).error, exceptions)
    ensures 1 <= calls < maxAttempts ==> call(calls).Returned? || !IsCaught(call(calls).error, exceptions)
    ensures sleeps == Schedule(backoffFactor, maxDelay, if calls == 0 then 0 else calls - 1)
  {
    sleeps := [];
    var attempt := 1;
    while attempt <= maxAttempts
      invariant 1 <= attempt && (maxAttempts >= 1 ==> attempt <= maxAttempts) && (maxAttempts <= 0 ==> attempt == 1)
      invariant forall a :: 1 <= a < attempt ==> call(a).Raised? && IsCaught(call(a).error, exceptions)
      invariant sleeps == Schedule(backoffFactor, maxDelay, attempt - 1)
      decreases maxAttempts - attempt
    {
      result := call(attempt);
      if result.Returned? || !IsCaught(result.error, exceptions) || attempt == maxAttempts {
        calls := attempt;
        return;
      }
      sleeps := sleeps + [Delay(backoffFactor, maxDelay, attempt)];
      attempt := attempt + 1;
    }
    result, calls := Raised(RetryLogicError), 0;
  }

  // ---------------------------------------------------------------------------------------------
  // The delays

  lemma {:induction false} PowGrows(b: real, k: nat)
    requires b >= 1.0
    ensures 1.0 <= Pow(b, k) <= Pow(b, k + 1)
  {
    if k > 0 {
      PowGrows(b, k - 1);
    }
    assert Pow(b, k + 1) == b * Pow(b, k);
    assert b * Pow(b, k) >= 1.0 * Pow(b, k);
  }

  lemma {:induction false} PowNonNegative(b: real, k: nat)
    requires b >= 0.0
    ensures Pow(b, k) >= 0.0
  {
    if k > 0 {
      PowNonNegative(b, k - 1);
    }
  }

  /** No delay exceeds `max_delay`, and none is negative when neither setting is. */
  lemma DelayBounds(backoffFactor: real, maxDelay: real, attempt: nat)
    ensures Delay(backoffFactor, maxDelay, attempt) <= maxDelay
    ensures backoffFactor >= 0.0 && maxDelay >= 0.0 ==> Delay(backoffFactor, maxDelay, attempt) >= 0.0
  {
    if backoffFactor >= 0.0 {
      PowNonNegative(backoffFactor, attempt);
    }
  }

  /** With a factor of at least 1 the delays never shrink from one attempt to the next. */
  lemma DelayNondecreasing(backoffFactor: real, maxDelay: real, attempt: nat)
    requires backoffFactor >= 1.0
    ensures Delay(backoffFactor, maxDelay, attempt) <= Delay(backoffFactor, maxDelay, attempt + 1)
  {
    PowGrows(backoffFactor, attempt);
  }

  function Sum(s: seq<real>): real {
    if s == [] then 0.0 else Sum(s[..|s| - 1]) + s[|s| - 1]
  }

  /** All the waiting before the `n + 1`-th attempt is at most `n * max_delay`. */
  lemma {:induction false} ScheduleTotal(backoffFactor: real, maxDelay: real, n: nat)
    ensures Sum(Schedule(backoffFactor, maxDelay, n)) <= n as real * maxDelay
  {
    if n > 0 {
      var s := Schedule(backoffFactor, maxDelay, n);
      assert s[..n - 1] == Schedule(backoffFactor, maxDelay, n - 1);
      ScheduleTotal(backoffFactor, maxDelay, n - 1);
      DelayBounds(backoffFactor, maxDelay, n);
    }
  }

  /** The default `(Exception,)` retries exactly the exceptions derived from `Exception`. */
  lemma DefaultCatchesExceptions(e: PyException)
    ensures IsCaught(e, DefaultExceptions) <==> "Exception" in e.mro
  {
    if "Exception" in e.mro {
      assert DefaultExceptions[0] in e.mro;
    }
  }

  // ---------------------------------------------------------------------------------------------
  // Runs

  /** An operation that keeps raising a retried exception is called `max_attempts` times; its last error is raised. */
  method RetryAlwaysFailing(e: PyException, maxAttempts: int, backoffFactor: real, maxDelay: real,
                            exceptions: seq<string>)
    returns (result: Outcome<int>, calls: nat, sleeps: seq<real>)
    requires maxAttempts >= 1 && IsCaught(e, exceptions)
    ensures result == Raised(e) && calls == maxAttempts
    ensures sleeps == Schedule(backoffFactor, maxDelay, maxAttempts - 1)
  {
    result, calls, sleeps := RetryWithBackoff((a: nat) => Raised(e), maxAttempts, backoffFactor, maxDelay, exceptions);
  }

  /** An exception outside the retried classes escapes at once: one call, no sleep. */
  method RetryNotCaught(e: PyException, maxAttempts: int, backoffFactor: real, maxDelay: real,
                        exceptions: seq<string>)
    returns (result: Outcome<int>, calls: nat, sleeps: seq<real>)
    requires maxAttempts >= 1 && !IsCaught(e, exceptions)
    ensures result == Raised(e) && calls == 1 && sleeps == []
  {
    var call := (a: nat) => Raised(e);
    result, calls, sleeps := RetryWithBackoff(call, maxAttempts, backoffFactor, maxDelay, exceptions);
    assert call(1) == Raised(e);
  }

  /** With no attempt allowed, the operation is never called and the retry-logic error is raised. */
  method RetryNoAttempts(maxAttempts: int, backoffFactor: real, maxDelay: real)
    returns (result: Outcome<int>, calls: nat, sleeps: seq<real>)
    requires maxAttempts <= 0
    ensures result == Raised(RetryLogicError) && calls == 0 && sleeps == []
  {
    result, calls, sleeps := RetryWithBackoff((a: nat) => Returned(a), maxAttempts, backoffFactor, maxDelay, DefaultExceptions);
  }

  /**
   * Two timeouts, then an answer: with three attempts, factor 2 and a 10-second cap, the answer is
   * returned after sleeping 2 and 4 seconds.
   */
  method RetryTransientTimeouts() returns (result: Outcome<int>, calls: nat, sleeps: seq<real>)
    ensures result == Returned(200) && calls == 3 && sleeps == [2.0, 4.0]
  {
    var timeout := PyException(["TimeoutException", "Exception", "BaseException", "object"], "timed out");
    var call := (a: nat) => if a < 3 then Raised(timeout) else Returned(200);
    assert IsCaught(timeout, DefaultExceptions) by {
      assert DefaultExceptions[0] in timeout.mro;
    }
    result, calls, sleeps := RetryWithBackoff(call, 3, 2.0, 10.0, DefaultExceptions);
    assert Delay(2.0, 10.0, 1) == 2.0 && Delay(2.0, 10.0, 2) == 4.0;
  }
}
