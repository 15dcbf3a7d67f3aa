/** Calls to the limiter made one after another, each starting a given
    number of milliseconds after the previous one was let through, and the
    times at which the requests are actually let through.

    As written, the limiter records the time a call started, not the time
    it was let through after waiting. A call that waited therefore leaves a
    timestamp a whole window older than its request, which drops out of the
    window early, and more requests than the limit can pass within one
    window. Recording the time the request is let through bounds every
    window by the limit. */
module RateLimitTrace {
  import opened Wrappers
  import opened RateLimit

  /** waitForNextSlot recording the moment the request is let through. */
  function WaitForNextSlotCorrected(l: Limiter, now: int): (r: Slot)
    ensures r.limiter == l.(requestTimes := Prune(l.requestTimes, now, l.timeWindow) + [now + r.waited.GetOr(0)])
  {
    var kept := Prune(l.requestTimes, now, l.timeWindow);
    var waited := if |kept| >= l.requestsPerMinute then Some(WaitTime(kept, now, l.timeWindow)) else None;
    Slot(l.(requestTimes := kept + [now + waited.GetOr(0)]), waited)
  }

  /** The correction changes only what is recorded: a call waits exactly
      as long as it does as written. */
  lemma CorrectedWaitsAsWritten(l: Limiter, now: int)
    ensures WaitForNextSlotCorrected(l, now).waited == WaitForNextSlot(l, now).waited
    ensures WaitForNextSlotCorrected(l, now).limiter.requestTimes
         == WaitForNextSlot(l, now).limiter.requestTimes[..|WaitForNextSlot(l, now).limiter.requestTimes| - 1]
            + [now + WaitForNextSlot(l, now).waited.GetOr(0)]
  {
    var kept := Prune(l.requestTimes, now, l.timeWindow);
    assert (kept + [now])[..|kept|] == kept;
  }

  /** The release times of a sequence of calls: call i starts `gaps[i]`
      milliseconds after call i - 1 was let through (the first one
      `gaps[0]` after `clock`). */
  function Run(l: Limiter, clock: int, gaps: seq<nat>, corrected: bool): (releases: seq<int>)
    ensures |releases| == |gaps|
    decreases |gaps|
  {
    if |gaps| == 0 then []
    else
      var now := clock + gaps[0];
      var slot := if corrected then WaitForNextSlotCorrected(l, now) else WaitForNextSlot(l, now);
      var release := now + slot.waited.GetOr(0);
      [release] + Run(slot.limiter, release, gaps[1..], corrected)
  }

  /** How many of the times lie in the window ending at `a`. */
  function CountRecent(s: seq<int>, a: int, window: int): (n: nat)
    ensures n <= |s|
  {
    if |s| == 0 then 0
    else CountRecent(s[..|s| - 1], a, window) + (if Recent(s[|s| - 1], a, window) then 1 else 0)
  }

  /** No request is let through while `limit` earlier-or-simultaneous
      requests are already in its window. */
  ghost predicate WithinLimit(releases: seq<int>, limit: int, window: int) {
    forall i :: 0 <= i < |releases| ==> CountRecent(releases[..i + 1], releases[i], window) <= limit
  }

  /** One request per 500 ms, three calls in a row: as written, the second
      call waits 500 ms but records 0, so at 500 ms both records have left
      the window and the third call passes at once, two requests at the
      same moment. */
  lemma AsWrittenExceedsLimit(l: Limiter, gaps: seq<nat>)
    requires l == NewLimiter(1, Some(500)) && Zeros(gaps, 3)
    ensures Run(l, 0, gaps, false) == [0, 500, 500]
    ensures !WithinLimit(Run(l, 0, gaps, false), 1, 500)
  {
    assert l == OnePerWindow([]);
    var s1, s2, s3 := ThreeCalls(l);
    assert gaps[0] == 0 && gaps[1] == 0 && gaps[2] == 0;
    RunOfThree(l, 0, gaps, s1, s2, s3, 0, 500, 500);
    TwoInWindow(Run(l, 0, gaps, false));
  }

  lemma TwoInWindow(r: seq<int>)
    requires r == [0, 500, 500]
    ensures CountRecent(r[..3], r[2], 500) == 2
  {
    assert r[..3] == [0, 500] + [500];
    CountRecentAppend([0, 500], 500, 500, 500);
    assert [0, 500] == [0] + [500];
    CountRecentAppend([0], 500, 500, 500);
    assert [0] == [] + [0];
    CountRecentAppend([], 0, 500, 500);
  }

  /** A limiter of one request per 500 ms that has recorded `times`. */
  function OnePerWindow(times: seq<int>): Limiter {
    Limiter(times, 1, 500)
  }

  /** `gaps` is `n` calls made back to back. */
  predicate Zeros(gaps: seq<nat>, n: nat) {
    |gaps| == n && forall i :: 0 <= i < n ==> gaps[i] == 0
  }

  /** A run of the limiter as written is its first call's release followed
      by the run from there. */
  lemma RunAsWrittenUnfold(l: Limiter, clock: int, gaps: seq<nat>, slot: Slot, release: int)
    requires |gaps| > 0 && slot == WaitForNextSlot(l, clock + gaps[0])
    requires release == clock + gaps[0] + slot.waited.GetOr(0)
    ensures Run(l, clock, gaps, false) == [release] + Run(slot.limiter, release, gaps[1..], false)
  {
  }

  /** A run of the corrected limiter is its first call's release followed
      by the run from there. */
  lemma RunCorrectedUnfold(l: Limiter, clock: int, gaps: seq<nat>, slot: Slot)
    requires |gaps| > 0 && slot == WaitForNextSlotCorrected(l, clock + gaps[0])
    ensures var release := clock + gaps[0] + slot.waited.GetOr(0);
            Run(l, clock, gaps, true) == [release] + Run(slot.limiter, release, gaps[1..], true)
  {
  }

  /** A run of three calls of the limiter as written, from the three
      calls' results. */
  lemma RunOfThree(l: Limiter, clock: int, gaps: seq<nat>, s1: Slot, s2: Slot, s3: Slot, a1: int, a2: int, a3: int)
    requires |gaps| == 3
    requires s1 == WaitForNextSlot(l, clock + gaps[0]) && a1 == clock + gaps[0] + s1.waited.GetOr(0)
    requires s2 == WaitForNextSlot(s1.limiter, a1 + gaps[1]) && a2 == a1 + gaps[1] + s2.waited.GetOr(0)
    requires s3 == WaitForNextSlot(s2.limiter, a2 + gaps[2]) && a3 == a2 + gaps[2] + s3.waited.GetOr(0)
    ensures Run(l, clock, gaps, false) == [a1, a2, a3]
  {
    var g1 := gaps[1..];
    var g2 := g1[1..];
    assert g1[0] == gaps[1] && g2[0] == gaps[2] && g2[1..] == [];
    assert Run(s2.limiter, a2, g2, false) == [a3] by {
      RunAsWrittenUnfold(s2.limiter, a2, g2, s3, a3);
    }
    assert Run(s1.limiter, a1, g1, false) == [a2] + [a3] by {
      RunAsWrittenUnfold(s1.limiter, a1, g1, s2, a2);
    }
    RunAsWrittenUnfold(l, clock, gaps, s1, a1);
    assert [a1] + ([a2] + [a3]) == [a1, a2, a3];
  }

  /** The three calls one after another: the second waits the whole
      window, the third none. */
  lemma ThreeCalls(l: Limiter) returns (s1: Slot, s2: Slot, s3: Slot)
    requires l == OnePerWindow([])
    ensures s1 == WaitForNextSlot(l, 0) && s1.waited == None
    ensures s2 == WaitForNextSlot(s1.limiter, 0) && s2.waited == Some(500)
    ensures s3 == WaitForNextSlot(s2.limiter, 500) && s3.waited == None
  {
    s1 := WaitForNextSlot(l, 0);
    assert s1.limiter == OnePerWindow([0]) && s1.waited == None by { FirstCall(l); }
    s2 := WaitForNextSlot(s1.limiter, 0);
    assert s2.limiter == OnePerWindow([0, 0]) && s2.waited == Some(500) by { SecondCall(s1.limiter); }
    s3 := WaitForNextSlot(s2.limiter, 500);
    assert s3.waited == None by { ThirdCall(s2.limiter); }
  }

  /** Pruning keeps a record that lies wholly in the window. */
  lemma {:induction false} PruneAllRecent(times: seq<int>, now: int, window: int)
    requires forall i :: 0 <= i < |times| ==> Recent(times[i], now, window)
    ensures Prune(times, now, window) == times
  {
    if |times| > 0 {
      var init := times[..|times| - 1];
      assert times == init + [times[|times| - 1]];
      PruneAllRecent(init, now, window);
    }
  }

  lemma FirstCall(l: Limiter)
    requires l == OnePerWindow([])
    ensures WaitForNextSlot(l, 0) == Slot(OnePerWindow([0]), None)
  {
  }

  lemma SecondCall(l: Limiter)
    requires l == OnePerWindow([0])
    ensures WaitForNextSlot(l, 0) == Slot(OnePerWindow([0, 0]), Some(500))
  {
    PruneAllRecent([0], 0, 500);
    var w := WaitTime([0], 0, 500);
    assert w == 500;
  }

  lemma ThirdCall(l: Limiter)
    requires l == OnePerWindow([0, 0])
    ensures WaitForNextSlot(l, 500) == Slot(OnePerWindow([500]), None)
  {
    NothingRecent([0, 0], 500, 500);
  }

  lemma {:induction false} CountRecentAppend(s: seq<int>, x: int, a: int, window: int)
    ensures CountRecent(s + [x], a, window) == CountRecent(s, a, window) + (if Recent(x, a, window) then 1 else 0)
  {
    assert (s + [x])[..|s|] == s;
  }

  /** Times outside the window at the front do not count. */
  lemma {:induction false} CountRecentDropOld(s: seq<int>, p: nat, a: int, window: int)
    requires p <= |s|
    requires forall j :: 0 <= j < p ==> !Recent(s[j], a, window)
    ensures CountRecent(s, a, window) == CountRecent(s[p..], a, window)
  {
    if |s| > 0 {
      var init := s[..|s| - 1];
      if p == |s| {
        CountRecentDropOld(init, |init|, a, window);
        assert init[|init|..] == [];
      } else {
        CountRecentDropOld(init, p, a, window);
        assert s[p..] == init[p..] + [s[|s| - 1]];
        CountRecentAppend(init[p..], s[|s| - 1], a, window);
      }
    }
  }

  lemma {:induction false} CountRecentAllRecent(s: seq<int>, a: int, window: int)
    requires forall j :: 0 <= j < |s| ==> Recent(s[j], a, window)
    ensures CountRecent(s, a, window) == |s|
  {
    if |s| > 0 {
      CountRecentAllRecent(s[..|s| - 1], a, window);
    }
  }

  /** A later window end never holds more of the times. */
  lemma {:induction false} CountRecentAntitone(s: seq<int>, a: int, b: int, window: int)
    requires a <= b
    ensures CountRecent(s, b, window) <= CountRecent(s, a, window)
  {
    if |s| > 0 {
      CountRecentAntitone(s[..|s| - 1], a, b, window);
    }
  }

  /** What holds between calls of the corrected limiter: `h` is every
      release so far, sorted and not after the clock `c`; the recorded
      times are the suffix of `h` from `k`, everything before it is outside
      the window at `c`, and the window at `c` holds at most `limit`. */
  ghost predicate Inv(h: seq<int>, l: Limiter, c: int, k: nat) {
    && Sorted(h)
    && (forall j :: 0 <= j < |h| ==> h[j] <= c)
    && k <= |h| && l.requestTimes == h[k..]
    && (forall j :: 0 <= j < k ==> !Recent(h[j], c, l.timeWindow))
    && CountRecent(h, c, l.timeWindow) <= l.requestsPerMinute
  }

  lemma SuffixSorted(h: seq<int>, k: nat)
    requires Sorted(h) && k <= |h|
    ensures Sorted(h[k..])
  {
    forall i, j | 0 <= i < j < |h[k..]|
      ensures h[k..][i] <= h[k..][j]
    {
      assert h[k..][i] == h[k + i] && h[k..][j] == h[k + j];
    }
  }

  /** At a call's start the kept window is the suffix of the releases
      from some `k'`, everything before it is outside the window, and it
      holds at most `limit` times. */
  lemma KeptIsRecentSuffix(h: seq<int>, l: Limiter, c: int, k: nat, now: int) returns (k': nat)
    requires Inv(h, l, c, k) && c <= now
    ensures k <= k' <= |h|
    ensures Prune(l.requestTimes, now, l.timeWindow) == h[k'..]
    ensures forall j :: 0 <= j < k' ==> !Recent(h[j], now, l.timeWindow)
    ensures forall j :: k' <= j < |h| ==> Recent(h[j], now, l.timeWindow)
    ensures |h[k'..]| <= l.requestsPerMinute
  {
    var window := l.timeWindow;
    var w := l.requestTimes;
    SuffixSorted(h, k);
    var m := PruneSortedIsSuffix(w, now, window);
    assert h[k..][m..] == h[k + m..];
    k' := k + m;
    PruneKeepsRecent(w, now, window);
    forall j | k' <= j < |h|
      ensures Recent(h[j], now, window)
    {
      assert h[j] == h[k'..][j - k'];
    }
    forall j | 0 <= j < k'
      ensures !Recent(h[j], now, window)
    {
      if j >= k {
        assert h[j] == w[j - k];
      }
    }
    CountRecentDropOld(h, k', now, window);
    CountRecentAllRecent(h[k'..], now, window);
    CountRecentAntitone(h, c, now, window);
  }

  /** The release of a corrected call: at the call's start when the window
      has room, otherwise exactly when the first kept time leaves it. */
  lemma ReleaseTime(l: Limiter, now: int, kept: seq<int>)
    requires kept == Prune(l.requestTimes, now, l.timeWindow)
    requires |kept| > 0 ==> kept[0] <= now
    ensures var a := now + WaitForNextSlotCorrected(l, now).waited.GetOr(0);
            && now <= a
            && (|kept| < l.requestsPerMinute ==> a == now)
            && (|kept| >= l.requestsPerMinute && |kept| > 0 ==> a == kept[0] + l.timeWindow)
  {
    PruneKeepsRecent(l.requestTimes, now, l.timeWindow);
  }

  lemma AppendSorted(h: seq<int>, a: int)
    requires Sorted(h) && forall j :: 0 <= j < |h| ==> h[j] <= a
    ensures Sorted(h + [a])
  {
    var h' := h + [a];
    forall i, j | 0 <= i < j < |h'|
      ensures h'[i] <= h'[j]
    {
      if j < |h| {
        assert h'[i] == h[i] && h'[j] == h[j];
      }
    }
  }

  /** One corrected call keeps the invariant, with the new release at most
      `limit`-th in its window. */
  lemma StepKeepsInv(h: seq<int>, l: Limiter, c: int, k: nat, now: int, slot: Slot, a: int) returns (k': nat)
    requires l.requestsPerMinute >= 1 && l.timeWindow > 0
    requires Inv(h, l, c, k) && c <= now
    requires slot == WaitForNextSlotCorrected(l, now) && a == now + slot.waited.GetOr(0)
    ensures slot.limiter.requestsPerMinute == l.requestsPerMinute
    ensures slot.limiter.timeWindow == l.timeWindow
    ensures now <= a && Inv(h + [a], slot.limiter, a, k')
  {
    k' := KeptIsRecentSuffix(h, l, c, k, now);
    var kept := h[k'..];
    if |kept| > 0 {
      assert kept[0] == h[k'] && h[k'] <= c;
    }
    ReleaseTime(l, now, kept);
    InvAfterRelease(h, slot.limiter, c, k', now, a);
  }

  /** The invariant after a release at `a`, from what pruning at `now`
      left and how long the call waited. */
  lemma InvAfterRelease(h: seq<int>, l': Limiter, c: int, k': nat, now: int, a: int)
    requires Sorted(h) && (forall j :: 0 <= j < |h| ==> h[j] <= c) && c <= now <= a
    requires k' <= |h| && l'.requestTimes == h[k'..] + [a]
    requires |h[k'..]| <= l'.requestsPerMinute
    requires forall j :: 0 <= j < k' ==> !Recent(h[j], now, l'.timeWindow)
    requires forall j :: k' <= j < |h| ==> Recent(h[j], now, l'.timeWindow)
    requires |h[k'..]| < l'.requestsPerMinute ==> a == now
    requires |h[k'..]| >= l'.requestsPerMinute ==> |h[k'..]| > 0 && a == h[k'] + l'.timeWindow
    ensures Inv(h + [a], l', a, k')
  {
    var limit, window := l'.requestsPerMinute, l'.timeWindow;
    var h' := h + [a];
    assert Sorted(h') by {
      forall j | 0 <= j < |h|
        ensures h[j] <= a
      {
        assert h[j] <= c;
      }
      AppendSorted(h, a);
    }
    assert forall j :: 0 <= j < |h'| ==> h'[j] <= a by {
      forall j | 0 <= j < |h'|
        ensures h'[j] <= a
      {
        if j < |h| {
          assert h'[j] == h[j] && h[j] <= c;
        }
      }
    }
    assert l'.requestTimes == h'[k'..] by {
      assert h'[k'..] == h[k'..] + [a];
    }
    assert forall j :: 0 <= j < k' ==> !Recent(h'[j], a, window) by {
      forall j | 0 <= j < k'
        ensures !Recent(h'[j], a, window)
      {
        assert h'[j] == h[j];
        assert !Recent(h[j], now, window);
      }
    }
    assert CountRecent(h', a, window) <= limit by {
      CountRecentAppend(h, a, a, window);
      AtMostLimitAtRelease(h, k', now, a, limit, window);
    }
  }

  /** At the release the earlier releases in the window number fewer than
      `limit`: either the window had room at the call's start, or the call
      waited until the first kept time left it. */
  lemma AtMostLimitAtRelease(h: seq<int>, k': nat, now: int, a: int, limit: int, window: int)
    requires k' <= |h| && now <= a && |h[k'..]| <= limit
    requires forall j :: 0 <= j < k' ==> !Recent(h[j], now, window)
    requires forall j :: k' <= j < |h| ==> Recent(h[j], now, window)
    requires |h[k'..]| < limit ==> a == now
    requires |h[k'..]| >= limit ==> |h[k'..]| > 0 && a == h[k'] + window
    ensures CountRecent(h, a, window) < limit
  {
    if |h[k'..]| < limit {
      CountRecentDropOld(h, k', now, window);
    } else {
      forall j | 0 <= j < k' + 1
        ensures !Recent(h[j], a, window)
      {
        if j < k' {
          assert !Recent(h[j], now, window);
        }
      }
      CountRecentDropOld(h, k' + 1, a, window);
    }
  }

  /** Each of the releases `r` is at most `limit`-th in its window,
      counting the releases `h` before them. */
  ghost predicate BoundedAfter(h: seq<int>, r: seq<int>, limit: int, window: int) {
    forall i :: 0 <= i < |r| ==> CountRecent(h + r[..i + 1], r[i], window) <= limit
  }

  /** Bounds on a run's releases carry over once its first release is
      added to the history. */
  lemma ShiftBound(h: seq<int>, a: int, rest: seq<int>, limit: int, window: int)
    requires CountRecent(h + [a], a, window) <= limit
    requires BoundedAfter(h + [a], rest, limit, window)
    ensures BoundedAfter(h, [a] + rest, limit, window)
  {
    var r := [a] + rest;
    forall i | 0 <= i < |r|
      ensures CountRecent(h + r[..i + 1], r[i], window) <= limit
    {
      if i == 0 {
        assert h + r[..1] == h + [a];
      } else {
        assert CountRecent((h + [a]) + rest[..i - 1 + 1], rest[i - 1], window) <= limit;
        assert h + r[..i + 1] == (h + [a]) + rest[..i];
        assert r[i] == rest[i - 1];
      }
    }
  }

  /** One corrected call of a run from an invariant state: its release,
      the limiter after it, and the invariant again. */
  lemma CorrectedStep(h: seq<int>, l: Limiter, c: int, k: nat, gaps: seq<nat>) returns (a: int, l': Limiter, k': nat)
    requires l.requestsPerMinute >= 1 && l.timeWindow > 0
    requires Inv(h, l, c, k) && |gaps| > 0
    ensures l'.requestsPerMinute == l.requestsPerMinute && l'.timeWindow == l.timeWindow
    ensures Inv(h + [a], l', a, k')
    ensures Run(l, c, gaps, true) == [a] + Run(l', a, gaps[1..], true)
  {
    var now := c + gaps[0];
    var slot := WaitForNextSlotCorrected(l, now);
    a := now + slot.waited.GetOr(0);
    l' := slot.limiter;
    assert Run(l, c, gaps, true) == [a] + Run(l', a, gaps[1..], true) by {
      RunCorrectedUnfold(l, c, gaps, slot);
    }
    k' := StepKeepsInv(h, l, c, k, now, slot, a);
  }

  /** Every release of a run from an invariant state is at most
      `limit`-th in its window, counting the releases before the run. */
  lemma {:induction false} RunFromInv(h: seq<int>, l: Limiter, c: int, k: nat, gaps: seq<nat>)
    requires l.requestsPerMinute >= 1 && l.timeWindow > 0
    requires Inv(h, l, c, k)
    ensures BoundedAfter(h, Run(l, c, gaps, true), l.requestsPerMinute, l.timeWindow)
    decreases |gaps|
  {
    if |gaps| > 0 {
      var a, l', k' := CorrectedStep(h, l, c, k, gaps);
      RunFromInv(h + [a], l', a, k', gaps[1..]);
      ShiftBound(h, a, Run(l', a, gaps[1..], true), l.requestsPerMinute, l.timeWindow);
    } else {
      assert |Run(l, c, gaps, true)| == 0;
    }
  }

  /** The corrected limiter keeps every window within the limit, for any
      limit of at least one, any positive window and any spacing of calls. */
  lemma CorrectedWithinLimit(limit: int, window: int, clock: int, gaps: seq<nat>)
    requires limit >= 1 && window > 0
    ensures WithinLimit(Run(NewLimiter(limit, Some(window)), clock, gaps, true), limit, window)
  {
    var l := NewLimiter(limit, Some(window));
    assert l.timeWindow == window && l.requestsPerMinute == limit;
    var r := Run(l, clock, gaps, true);
    assert Inv([], l, clock, 0);
    RunFromInv([], l, clock, 0, gaps);
    forall i | 0 <= i < |r|
      ensures CountRecent(r[..i + 1], r[i], window) <= limit
    {
      var x := [] + r[..i + 1];
      assert CountRecent(x, r[i], window) <= limit;
      assert x == r[..i + 1];
    }
  }
}
