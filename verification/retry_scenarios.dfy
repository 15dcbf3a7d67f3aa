/** The retry runs of src/__tests__/rate-limiter.test.ts, with the
    operation given as the outcome of each numbered call. */
module RetryScenarios {
  import opened Wrappers
  import opened Retry
  import Text

  /** An operation that fails twice with "Temporary failure" and then
      returns "success". */
  function FailTwiceThenSucceed(i: nat): Attempt<string> {
    if i < 2 then Failed("Temporary failure") else Succeeded("success")
  }

  /** An operation that always fails with "Persistent failure". */
  function AlwaysFail(i: nat): Attempt<string> {
    Failed("Persistent failure")
  }

  function Given(maxRetries: int, initialDelay: int, maxDelay: int, backoffFactor: int): RetryOverrides {
    RetryOverrides(Some(maxRetries), Some(initialDelay), Some(maxDelay), Some(backoffFactor))
  }

  /** Two failures with three retries allowed: the third call succeeds,
      after waits of 10 and 20 milliseconds. */
  method RetriesUntilSuccess() returns (run: RetryRun<string>)
    ensures run == RetryRun(Success("success"), 3, [10, 20])
  {
    run := WithRetry(FailTwiceThenSucceed, Given(3, 10, 100, 2));
    var opts := MergeOptions(Given(3, 10, 100, 2));
    assert opts == RetryOptions(3, 10, 100, 2);
    FirstSuccessIsFirst(FailTwiceThenSucceed, 2, AttemptLimit(opts));
    assert DelayAt(opts, 1) == 20;
    assert Waits(opts, 2) == [10, 20];
  }

  /** An operation that never succeeds, with two retries allowed, is called
      three times and the run fails with the retry count and the last
      error in the message. */
  method GivesUpAfterMaxRetries() returns (run: RetryRun<string>)
    ensures run.calls == 3 && run.waits == [10, 20]
    ensures run.result == Failure("Operation failed after " + "2" + " retries. Last error: " + "Persistent failure")
  {
    run := WithRetry(AlwaysFail, Given(2, 10, 100, 2));
    var opts := MergeOptions(Given(2, 10, 100, 2));
    assert opts == RetryOptions(2, 10, 100, 2);
    FirstSuccessNone(AlwaysFail, AttemptLimit(opts));
    assert DelayAt(opts, 1) == 20;
    assert Waits(opts, 2) == [10, 20];
    assert Text.NatToString(2) == "2";
  }

  /** With an initial delay of 50 and factor 2 the two waits are 50 and
      100 milliseconds, so consecutive calls lie more than 40 apart. */
  method BackoffGrows() returns (run: RetryRun<string>)
    ensures run.result == Success("success") && run.calls == 3
    ensures |run.waits| == 2 && run.waits[0] > 40 && run.waits[1] > 40 && run.waits[0] < run.waits[1]
  {
    run := WithRetry(FailTwiceThenSucceed, Given(3, 50, 200, 2));
    var opts := MergeOptions(Given(3, 50, 200, 2));
    assert opts == RetryOptions(3, 50, 200, 2);
    FirstSuccessIsFirst(FailTwiceThenSucceed, 2, AttemptLimit(opts));
    assert DelayAt(opts, 1) == 100;
    assert Waits(opts, 2) == [50, 100];
  }
}
