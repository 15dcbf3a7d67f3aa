/** withRetry (src/utils/rate-limiter.ts) without real time: the operation
    is a function from the attempt number to that attempt's outcome, and
    the sleeps are returned as the list of delays waited. Numbers are
    integers. */
module Retry {
  import opened Wrappers
  import Text

  datatype RetryOptions = RetryOptions(maxRetries: int, initialDelay: int, maxDelay: int, backoffFactor: int)

  const DefaultRetryOptions: RetryOptions := RetryOptions(3, 1000, 10000, 2)

  /** The caller's partial options; `None` is a field left out. */
  datatype RetryOverrides = RetryOverrides(
    maxRetries: Option<int>,
    initialDelay: Option<int>,
    maxDelay: Option<int>,
    backoffFactor: Option<int>)

  const NoOverrides: RetryOverrides := RetryOverrides(None, None, None, None)

  /** `{ ...defaultRetryOptions, ...options }`: a given field wins over the
      default. */
  function MergeOptions(o: RetryOverrides): (r: RetryOptions)
    ensures o.maxRetries.Some? ==> r.maxRetries == o.maxRetries.value
    ensures o.maxRetries.None? ==> r.maxRetries == DefaultRetryOptions.maxRetries
    ensures o.initialDelay.Some? ==> r.initialDelay == o.initialDelay.value
    ensures o.initialDelay.None? ==> r.initialDelay == DefaultRetryOptions.initialDelay
    ensures o.maxDelay.Some? ==> r.maxDelay == o.maxDelay.value
    ensures o.maxDelay.None? ==> r.maxDelay == DefaultRetryOptions.maxDelay
    ensures o.backoffFactor.Some? ==> r.backoffFactor == o.backoffFactor.value
    ensures o.backoffFactor.None? ==> r.backoffFactor == DefaultRetryOptions.backoffFactor
  {
    RetryOptions(o.maxRetries.GetOr(DefaultRetryOptions.maxRetries),
                 o.initialDelay.GetOr(DefaultRetryOptions.initialDelay),
                 o.maxDelay.GetOr(DefaultRetryOptions.maxDelay),
                 o.backoffFactor.GetOr(DefaultRetryOptions.backoffFactor))
  }

  /** Leaving everything out gives the defaults; giving everything gives
      exactly what was given. */
  lemma MergeExtremes(opts: RetryOptions)
    ensures MergeOptions(NoOverrides) == RetryOptions(3, 1000, 10000, 2)
    ensures MergeOptions(RetryOverrides(Some(opts.maxRetries), Some(opts.initialDelay),
                                        Some(opts.maxDelay), Some(opts.backoffFactor))) == opts
  {
  }

  /** The delay waited after the failure of attempt `k`: the initial delay,
      then each time multiplied by the factor and capped at the maximum. */
  function DelayAt(opts: RetryOptions, k: nat): (d: int)
    ensures k > 0 ==> d <= opts.maxDelay
  {
    if k == 0 then opts.initialDelay
    else Min(DelayAt(opts, k - 1) * opts.backoffFactor, opts.maxDelay)
  }

  function Min(a: int, b: int): int {
    if a <= b then a else b
  }

  function Pow(b: int, n: nat): int {
    if n == 0 then 1 else b * Pow(b, n - 1)
  }

  lemma {:induction false} PowAtLeastOne(b: int, n: nat)
    requires b >= 1
    ensures Pow(b, n) >= 1
  {
    if n > 0 {
      PowAtLeastOne(b, n - 1);
      assert b * Pow(b, n - 1) >= Pow(b, n - 1);
    }
  }

  lemma ScaleUp(a: int, f: int)
    requires a >= 0 && f >= 1
    ensures a * f >= a
  {
    assert a * f == a + a * (f - 1);
  }

  lemma Regroup(i: int, f: int, p: int)
    ensures i * (f * p) == (i * p) * f
  {
  }

  /** With a factor of at least 1 and a non-negative cap, the k-th delay is
      the initial delay times the factor to the k, capped once at the
      maximum. */
  lemma {:induction false} DelayClosedForm(opts: RetryOptions, k: nat)
    requires opts.backoffFactor >= 1 && opts.maxDelay >= 0
    requires k > 0
    ensures DelayAt(opts, k) == Min(opts.initialDelay * Pow(opts.backoffFactor, k), opts.maxDelay)
  {
    var f, m, i := opts.backoffFactor, opts.maxDelay, opts.initialDelay;
    if k == 1 {
      assert Pow(f, 1) == f * Pow(f, 0) == f;
    } else {
      DelayClosedForm(opts, k - 1);
      var prev := i * Pow(f, k - 1);
      Regroup(i, f, Pow(f, k - 1));
      assert i * Pow(f, k) == prev * f;
      if prev > m {
        ScaleUp(m, f);
        ScaleUp(prev, f);
      }
    }
  }

  /** With a non-negative initial delay no larger than the cap and a factor
      of at least 1, the delays never shrink. */
  lemma {:induction false} DelaysNonDecreasing(opts: RetryOptions, k: nat)
    requires 0 <= opts.initialDelay <= opts.maxDelay && opts.backoffFactor >= 1
    ensures 0 <= DelayAt(opts, k) <= DelayAt(opts, k + 1)
  {
    if k > 0 {
      DelaysNonDecreasing(opts, k - 1);
    }
    var d := DelayAt(opts, k);
    assert d * opts.backoffFactor >= d;
  }

  /** The delays waited before the first `n` retries. */
  function Waits(opts: RetryOptions, n: nat): (w: seq<int>)
    ensures |w| == n
    ensures forall k :: 0 <= k < n ==> w[k] == DelayAt(opts, k)
  {
    if n == 0 then [] else Waits(opts, n - 1) + [DelayAt(opts, n - 1)]
  }

  /** The outcome of one call of the operation. */
  datatype Attempt<T> = Succeeded(value: T) | Failed(message: string)

  /** The number of calls the loop allows: `maxRetries + 1`, none when it
      is negative. */
  function AttemptLimit(opts: RetryOptions): nat {
    if opts.maxRetries < 0 then 0 else opts.maxRetries + 1
  }

  /** The index of the first successful call among the first `n`, or `n`. */
  function FirstSuccess<T>(op: nat -> Attempt<T>, n: nat): (k: nat)
    ensures k <= n
    ensures k < n ==> op(k).Succeeded?
    ensures forall i :: 0 <= i < k ==> op(i).Failed?
  {
    FirstSuccessFrom(op, 0, n)
  }

  function FirstSuccessFrom<T>(op: nat -> Attempt<T>, i: nat, n: nat): (k: nat)
    requires i <= n
    ensures i <= k <= n
    ensures k < n ==> op(k).Succeeded?
    ensures forall j :: i <= j < k ==> op(j).Failed?
    decreases n - i
  {
    if i == n then n else if op(i).Succeeded? then i else FirstSuccessFrom(op, i + 1, n)
  }

  /** The message withRetry throws once every allowed call failed. */
  function ExhaustedMessage(maxRetries: int, lastError: Option<string>): string {
    "Operation failed after " + Text.IntToString(maxRetries) + " retries. Last error: " + lastError.GetOr("undefined")
  }

  /** What one run of withRetry did: its result, how many times it called
      the operation, and the delays it waited, in order. */
  datatype RetryRun<T> = RetryRun(result: Result<T, string>, calls: nat, waits: seq<int>)

  /** withRetry: calls the operation until it succeeds or `maxRetries + 1`
      calls have failed, waiting the current delay after every failure but
      the last. */
  method WithRetry<T>(op: nat -> Attempt<T>, overrides: RetryOverrides) returns (run: RetryRun<T>)
    ensures var opts := MergeOptions(overrides);
            var n := AttemptLimit(opts);
            var k := FirstSuccess(op, n);
            && (k < n ==> run == RetryRun(Success(op(k).value), k + 1, Waits(opts, k)))
            && (k == n ==> run == RetryRun(Failure(ExhaustedMessage(opts.maxRetries,
                                                     if n == 0 then None else Some(op(n - 1).message))),
                                           n, Waits(opts, if n == 0 then 0 else n - 1)))
  {
    var opts := MergeOptions(overrides);
    var lastError: Option<string> := None;
    var delay := opts.initialDelay;
    var waits: seq<int> := [];
    var attempt := 0;
    ghost var n := AttemptLimit(opts);
    while attempt <= opts.maxRetries
      invariant 0 <= attempt <= n
      invariant n > 0 ==> attempt <= opts.maxRetries
      invariant forall i :: 0 <= i < attempt ==> op(i).Failed?
      invariant attempt > 0 ==> lastError == Some(op(attempt - 1).message)
      invariant attempt == 0 ==> lastError == None
      invariant waits == Waits(opts, attempt)
      invariant delay == DelayAt(opts, attempt)
      decreases n - attempt
    {
      match op(attempt)
      case Succeeded(v) =>
        FirstSuccessIsFirst(op, attempt, n);
        return RetryRun(Success(v), attempt + 1, waits);
      case Failed(message) =>
        lastError := Some(message);
        if attempt == opts.maxRetries {
          FirstSuccessNone(op, n);
          return RetryRun(Failure(ExhaustedMessage(opts.maxRetries, lastError)), attempt + 1, waits);
        }
        waits := waits + [delay];
        delay := Min(delay * opts.backoffFactor, opts.maxDelay);
        attempt := attempt + 1;
    }
    FirstSuccessNone(op, n);
    return RetryRun(Failure(ExhaustedMessage(opts.maxRetries, lastError)), attempt, waits);
  }

  lemma FirstSuccessIsFirst<T>(op: nat -> Attempt<T>, k: nat, n: nat)
    requires k < n && op(k).Succeeded?
    requires forall i :: 0 <= i < k ==> op(i).Failed?
    ensures FirstSuccess(op, n) == k
  {
  }

  lemma FirstSuccessNone<T>(op: nat -> Attempt<T>, n: nat)
    requires forall i :: 0 <= i < n ==> op(i).Failed?
    ensures FirstSuccess(op, n) == n
  {
  }
}
