/** The limiter runs of src/__tests__/rate-limiter.test.ts: a limiter of
    two requests per 500 ms, called back to back from time 0. */
module RateLimitScenarios {
  import opened Wrappers
  import opened RateLimit
  import opened RateLimitTrace

  /** Three calls in a row on a fresh limiter: the first two find room in
      the window, the third finds it full and waits the whole window. */
  lemma TwoPerWindowCalls() returns (s1: Slot, s2: Slot, s3: Slot)
    ensures s1 == WaitForNextSlot(NewLimiter(2, Some(500)), 0) && s1.waited == None
    ensures s2 == WaitForNextSlot(s1.limiter, 0) && s2.waited == None
    ensures s3 == WaitForNextSlot(s2.limiter, 0) && s3.waited == Some(500)
  {
    var l := NewLimiter(2, Some(500));
    assert l == Limiter([], 2, 500);
    s1 := WaitForNextSlot(l, 0);
    assert s1.limiter == Limiter([0], 2, 500);
    s2 := WaitForNextSlot(s1.limiter, 0);
    PruneAllRecent([0], 0, 500);
    assert s2.limiter == Limiter([0, 0], 2, 500);
    s3 := WaitForNextSlot(s2.limiter, 0);
    PruneAllRecent([0, 0], 0, 500);
    assert WaitTime([0, 0], 0, 500) == 500;
  }

  /** Two requests within the limit are both let through at once. */
  lemma TwoPassAtOnce(gaps: seq<nat>)
    requires Zeros(gaps, 2)
    ensures Run(NewLimiter(2, Some(500)), 0, gaps, false) == [0, 0]
  {
    var s1, s2, s3 := TwoPerWindowCalls();
    var g1 := gaps[1..];
    assert g1[0] == gaps[1] && g1[1..] == [];
    assert Run(s1.limiter, 0, g1, false) == [0] by {
      RunAsWrittenUnfold(s1.limiter, 0, g1, s2, 0);
    }
    RunAsWrittenUnfold(NewLimiter(2, Some(500)), 0, gaps, s1, 0);
  }

  /** The third request waits for the first to leave the window: it is let
      through 500 ms after the start, more than 100 ms and less than
      600 ms later. */
  lemma ThirdIsDelayed(gaps: seq<nat>)
    requires Zeros(gaps, 3)
    ensures var r := Run(NewLimiter(2, Some(500)), 0, gaps, false);
            r == [0, 0, 500] && 100 < r[2] < 600
  {
    var s1, s2, s3 := TwoPerWindowCalls();
    assert gaps[0] == 0 && gaps[1] == 0 && gaps[2] == 0;
    RunOfThree(NewLimiter(2, Some(500)), 0, gaps, s1, s2, s3, 0, 0, 500);
  }
}
