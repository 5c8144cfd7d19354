/**
 * retry_with_exponential_backoff (utils.py:13-34). A call is attempted up to max_retries
 * times. The first success is returned and ends the retries. An error other than a rate
 * limit is raised at once. A rate limit is retried after a growing delay, except on the last
 * attempt, where it is raised.
 *
 * The wrapped call is modelled by what it does on each attempt: outcome(a) is the result
 * of attempt a (numbered from 0). The random jitter of attempt a is jitter(a). Sleeping is
 * not modelled; the method returns the delays it would sleep for.
 */
module Utils {
  import opened Text

  /** An exception raised by the wrapped call. */
  datatype Failure = RateLimitError(message: string) | OtherError(message: string)

  /** What one attempt of the wrapped call does. */
  datatype CallOutcome<T> = Success(value: T) | Failed(failure: Failure)

  /** How the retry loop ends: with a value, by raising, or by falling off the loop (None). */
  datatype RetryResult<T> = Returned(value: T) | Raised(failure: Failure) | ReturnedNone

  const DefaultMaxRetries: int := 5
  const DefaultBaseDelay: real := 1.0
  const DefaultMaxDelay: real := 60.0

  predicate IsRateLimit<T>(o: CallOutcome<T>) {
    o.Failed? && o.failure.RateLimitError?
  }

  /**
   * The attempt on which the loop stops, looking from attempt `from` on: the first one that
   * does not hit a rate limit, or the last attempt.
   */
  function StopAttempt<T>(outcome: nat -> CallOutcome<T>, maxRetries: int, from: nat): (k: nat)
    requires from < maxRetries
    ensures from <= k < maxRetries
    ensures forall a :: from <= a < k ==> IsRateLimit(outcome(a))
    ensures k < maxRetries - 1 ==> !IsRateLimit(outcome(k))
    decreases maxRetries - from
  {
    if from == maxRetries - 1 || !IsRateLimit(outcome(from)) then from
    else StopAttempt(outcome, maxRetries, from + 1)
  }

  /** How many times the call is made. */
  function CallsMade<T>(outcome: nat -> CallOutcome<T>, maxRetries: int): nat {
    if maxRetries <= 0 then 0 else StopAttempt(outcome, maxRetries, 0) + 1
  }

  /** How the retry ends. */
  function RetryResultOf<T>(outcome: nat -> CallOutcome<T>, maxRetries: int): RetryResult<T> {
    if maxRetries <= 0 then ReturnedNone
    else
      match outcome(StopAttempt(outcome, maxRetries, 0))
      case Success(v) => Returned(v)
      case Failed(f) => Raised(f)
  }

  function Pow2(n: nat): (p: real)
    ensures p >= 1.0
  {
    if n == 0 then 1.0 else 2.0 * Pow2(n - 1)
  }

  function MinReal(a: real, b: real): (m: real)
    ensures m <= a && m <= b && (m == a || m == b)
  {
    if a < b then a else b
  }

  /** base_delay * 2 ** attempt. */
  function Grown(baseDelay: real, attempt: nat): real {
    baseDelay * Pow2(attempt)
  }

  /** The delay after a rate limit on attempt `attempt`: base * 2^attempt plus jitter, capped at maxDelay. */
  function Backoff(baseDelay: real, maxDelay: real, attempt: nat, jitter: real): (d: real)
    requires 0.0 <= jitter <= 1.0
    ensures d <= maxDelay
    ensures MinReal(Grown(baseDelay, attempt), maxDelay) <= d
    ensures d <= Grown(baseDelay, attempt) + 1.0
  {
    MinReal(Grown(baseDelay, attempt) + jitter, maxDelay)
  }

  /** retry_with_exponential_backoff. */
  method Retry<T>(outcome: nat -> CallOutcome<T>, maxRetries: int, baseDelay: real, maxDelay: real, jitter: nat -> real)
    returns (result: RetryResult<T>, calls: nat, delays: seq<real>)
    requires forall a: nat :: 0.0 <= jitter(a) <= 1.0
    ensures result == RetryResultOf(outcome, maxRetries)
    ensures calls == CallsMade(outcome, maxRetries)
    ensures |delays| == (if calls == 0 then 0 else calls - 1)
    ensures forall a :: 0 <= a < |delays| ==> delays[a] == Backoff(baseDelay, maxDelay, a, jitter(a))
    ensures forall a :: 0 <= a < |delays| ==> MinReal(Grown(baseDelay, a), maxDelay) <= delays[a] <= maxDelay
  {
    delays := [];
    calls := 0;
    var attempt := 0;
    while attempt < maxRetries
      invariant 0 <= attempt && (maxRetries > 0 ==> attempt < maxRetries) && (maxRetries <= 0 ==> attempt == 0)
      invariant calls == attempt && |delays| == attempt
      invariant forall a :: 0 <= a < attempt ==> IsRateLimit(outcome(a))
      invariant forall a :: 0 <= a < attempt ==> delays[a] == Backoff(baseDelay, maxDelay, a, jitter(a))
      invariant maxRetries > 0 ==> StopAttempt(outcome, maxRetries, 0) == StopAttempt(outcome, maxRetries, attempt)
      decreases maxRetries - attempt
    {
      var o := outcome(attempt);
      calls := calls + 1;
      assert !IsRateLimit(o) || attempt == maxRetries - 1 ==> StopAttempt(outcome, maxRetries, attempt) == attempt;
      match o
      case Success(v) =>
        return Returned(v), calls, delays;
      case Failed(e) =>
        if e.OtherError? {
          // For non-rate-limit errors, don't retry
          return Raised(e), calls, delays;
        }
        if attempt == maxRetries - 1 {
          return Raised(e), calls, delays;
        }
        var delay := MinReal(baseDelay * Pow2(attempt) + jitter(attempt), maxDelay);
        assert delay == Backoff(baseDelay, maxDelay, attempt, jitter(attempt));
        delays := delays + [delay];
        attempt := attempt + 1;
    }
    result := ReturnedNone;
  }

  /** No attempt, and None, when max_retries is not positive. */
  lemma NoAttempts<T>(outcome: nat -> CallOutcome<T>, maxRetries: int)
    requires maxRetries <= 0
    ensures CallsMade(outcome, maxRetries) == 0 && RetryResultOf(outcome, maxRetries) == ReturnedNone
  {
  }

  /** The call is made at least once and at most max_retries times when max_retries is positive. */
  lemma CallsBounded<T>(outcome: nat -> CallOutcome<T>, maxRetries: int)
    ensures CallsMade(outcome, maxRetries) <= (if maxRetries <= 0 then 0 else maxRetries)
    ensures maxRetries > 0 ==> CallsMade(outcome, maxRetries) >= 1
  {
  }

  /** StopAttempt is the first attempt from `from` that is not a rate limit, or the last one. */
  lemma {:induction false} StopAttemptAt<T>(outcome: nat -> CallOutcome<T>, maxRetries: int, from: nat, k: nat)
    requires from <= k < maxRetries
    requires forall a :: from <= a < k ==> IsRateLimit(outcome(a))
    requires !IsRateLimit(outcome(k)) || k == maxRetries - 1
    ensures StopAttempt(outcome, maxRetries, from) == k
    decreases k - from
  {
    if from < k {
      StopAttemptAt(outcome, maxRetries, from + 1, k);
    }
  }

  /**
   * An attempt that is preceded only by rate limits and is not itself one ends the retries:
   * a success is returned, any other error raised, after exactly attempt + 1 calls.
   */
  lemma FirstNonRateLimitWins<T>(outcome: nat -> CallOutcome<T>, maxRetries: int, k: nat)
    requires k < maxRetries
    requires forall a :: 0 <= a < k ==> IsRateLimit(outcome(a))
    requires !IsRateLimit(outcome(k))
    ensures CallsMade(outcome, maxRetries) == k + 1
    ensures outcome(k).Success? ==> RetryResultOf(outcome, maxRetries) == Returned(outcome(k).value)
    ensures outcome(k).Failed? ==> RetryResultOf(outcome, maxRetries) == Raised(outcome(k).failure) &&
                                   outcome(k).failure.OtherError?
  {
    StopAttemptAt(outcome, maxRetries, 0, k);
  }

  /** Rate limits on every attempt: all max_retries calls are made and the last one's error is raised. */
  lemma RateLimitedThroughout<T>(outcome: nat -> CallOutcome<T>, maxRetries: int)
    requires maxRetries > 0
    requires forall a :: 0 <= a < maxRetries ==> IsRateLimit(outcome(a))
    ensures CallsMade(outcome, maxRetries) == maxRetries
    ensures outcome(maxRetries - 1).Failed? &&
            RetryResultOf(outcome, maxRetries) == Raised(outcome(maxRetries - 1).failure)
    ensures RetryResultOf(outcome, maxRetries).failure.RateLimitError?
  {
    StopAttemptAt(outcome, maxRetries, 0, maxRetries - 1);
  }

  /** The retry never ends by falling off the loop when max_retries is positive. */
  lemma RetryEndsInCall<T>(outcome: nat -> CallOutcome<T>, maxRetries: int)
    requires maxRetries > 0
    ensures !RetryResultOf(outcome, maxRetries).ReturnedNone?
    ensures RetryResultOf(outcome, maxRetries).Raised? ==>
              RetryResultOf(outcome, maxRetries).failure.OtherError? ||
              CallsMade(outcome, maxRetries) == maxRetries
  {
  }
}
