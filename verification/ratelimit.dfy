/** The sliding-window limiter of src/utils/rate-limiter.ts with an explicit
    clock: `now` is the millisecond reading of `Date.now()` at the start of
    the call, and the sleep is returned as the delay waited instead of being
    taken. */
module RateLimit {
  import opened Wrappers

  /** The limiter's state: the recorded request times, oldest first, the
      number of requests allowed per window and the window's length. */
  datatype Limiter = Limiter(requestTimes: seq<int>, requestsPerMinute: int, timeWindow: int)

  /** The window used when the constructor is given none: one minute. */
  const DefaultTimeWindow: int := 60000

  /** A new limiter: nothing recorded yet, and the window given or, when the
      argument is left out, one minute. */
  function NewLimiter(requestsPerMinute: int, timeWindowMs: Option<int>): (l: Limiter)
    ensures l.requestTimes == [] && l.requestsPerMinute == requestsPerMinute
    ensures timeWindowMs.None? ==> l.timeWindow == 60000
    ensures timeWindowMs.Some? ==> l.timeWindow == timeWindowMs.value
  {
    Limiter([], requestsPerMinute, timeWindowMs.GetOr(DefaultTimeWindow))
  }

  /** The result of one call: the limiter afterwards and the delay waited,
      `None` when the call did not wait. */
  datatype Slot = Slot(limiter: Limiter, waited: Option<int>)

  predicate Sorted(s: seq<int>) {
    forall i, j :: 0 <= i < j < |s| ==> s[i] <= s[j]
  }

  /** Whether `t` still lies in the window that ends at `now`. */
  predicate Recent(t: int, now: int, window: int) {
    now - t < window
  }

  /** The recorded times still inside the window, in their recorded order. */
  function Prune(times: seq<int>, now: int, window: int): (kept: seq<int>)
    ensures |kept| <= |times|
  {
    if |times| == 0 then []
    else
      var init := times[..|times| - 1];
      var last := times[|times| - 1];
      assert times == init + [last];
      var r := Prune(init, now, window);
      if Recent(last, now, window) then r + [last] else r
  }

  /** Pruning keeps every recorded time that is still in the window, as
      often as it was recorded, and nothing else. */
  lemma {:induction false} PruneKeepsExactlyRecent(times: seq<int>, now: int, window: int)
    ensures forall t :: multiset(Prune(times, now, window))[t]
                     == if Recent(t, now, window) then multiset(times)[t] else 0
  {
    if |times| > 0 {
      var init := times[..|times| - 1];
      var last := times[|times| - 1];
      assert times == init + [last];
      PruneKeepsExactlyRecent(init, now, window);
    }
  }

  /** Everything pruning keeps is in the window. */
  lemma {:induction false} PruneKeepsRecent(times: seq<int>, now: int, window: int)
    ensures forall i :: 0 <= i < |Prune(times, now, window)| ==> Recent(Prune(times, now, window)[i], now, window)
  {
    if |times| > 0 {
      var init := times[..|times| - 1];
      var last := times[|times| - 1];
      assert times == init + [last];
      PruneKeepsRecent(init, now, window);
      var r := Prune(init, now, window);
      assert forall i :: 0 <= i < |r| ==> Recent(r[i], now, window);
      if Recent(last, now, window) {
        var kept := r + [last];
        assert Prune(times, now, window) == kept;
        forall i | 0 <= i < |kept|
          ensures Recent(kept[i], now, window)
        {
          if i < |r| {
            assert kept[i] == r[i];
          }
        }
      } else {
        assert Prune(times, now, window) == r;
      }
    }
  }

  function Max(a: int, b: int): int {
    if a >= b then a else b
  }

  /** waitForNextSlot as written: prune the window, wait until its first
      entry leaves it when the window is full, then record the time the
      call started. */
  function WaitForNextSlot(l: Limiter, now: int): (r: Slot)
    ensures var kept := Prune(l.requestTimes, now, l.timeWindow);
            && r.limiter == l.(requestTimes := kept + [now])
            && (r.waited.Some? <==> |kept| >= l.requestsPerMinute)
            && (r.waited.Some? ==> r.waited.value == WaitTime(kept, now, l.timeWindow))
  {
    var kept := Prune(l.requestTimes, now, l.timeWindow);
    var waited := if |kept| >= l.requestsPerMinute then Some(WaitTime(kept, now, l.timeWindow)) else None;
    Slot(l.(requestTimes := kept + [now]), waited)
  }

  /** `Math.max(0, timeWindow - (now - oldest))` with `oldest` the first
      kept time, or `now` when nothing is kept. Waiting this long brings the
      clock to the moment the first kept time leaves the window. */
  function WaitTime(kept: seq<int>, now: int, window: int): (w: int)
    ensures w >= 0
    ensures |kept| > 0 && kept[0] <= now ==> w <= Max(0, window)
    ensures |kept| > 0 && kept[0] <= now && Recent(kept[0], now, window) ==>
              (0 < w && now + w == kept[0] + window && !Recent(kept[0], now + w, window))
    ensures |kept| == 0 ==> w == Max(0, window)
  {
    var oldest := if |kept| > 0 then kept[0] else now;
    Max(0, window - (now - oldest))
  }

  /** A waiting call waits no longer than the window, provided no recorded
      time lies in the future. */
  lemma WaitWithinWindow(l: Limiter, now: int)
    requires forall i :: 0 <= i < |l.requestTimes| ==> l.requestTimes[i] <= now
    ensures var r := WaitForNextSlot(l, now);
            r.waited.Some? ==> 0 <= r.waited.value <= Max(0, l.timeWindow)
  {
    PruneKeepsExactlyRecent(l.requestTimes, now, l.timeWindow);
    var kept := Prune(l.requestTimes, now, l.timeWindow);
    forall i | 0 <= i < |kept|
      ensures kept[i] <= now
    {
      var x := kept[i];
      assert x in multiset(kept);
      assert multiset(kept)[x] == if Recent(x, now, l.timeWindow) then multiset(l.requestTimes)[x] else 0;
      assert x in l.requestTimes;
    }
  }

  /** A window that is still under its limit lets the call through at once. */
  lemma UnderLimitDoesNotWait(l: Limiter, now: int)
    requires |Prune(l.requestTimes, now, l.timeWindow)| < l.requestsPerMinute
    ensures WaitForNextSlot(l, now).waited.None?
  {
  }

  /** Pruning a sorted record keeps a suffix of it: everything before that
      suffix has left the window. */
  lemma {:induction false} PruneSortedIsSuffix(times: seq<int>, now: int, window: int) returns (m: nat)
    requires Sorted(times)
    ensures m <= |times|
    ensures Prune(times, now, window) == times[m..]
    ensures forall j :: 0 <= j < m ==> !Recent(times[j], now, window)
  {
    if |times| == 0 {
      return 0;
    }
    var init := times[..|times| - 1];
    var last := times[|times| - 1];
    assert Sorted(init) by {
      forall i, j | 0 <= i < j < |init|
        ensures init[i] <= init[j]
      {
        assert init[i] == times[i] && init[j] == times[j];
      }
    }
    if Recent(last, now, window) {
      assert Prune(times, now, window) == Prune(init, now, window) + [last];
      m := PruneSortedIsSuffix(init, now, window);
      assert times[m..] == init[m..] + [last];
      forall j | 0 <= j < m
        ensures !Recent(times[j], now, window)
      {
        assert times[j] == init[j];
      }
    } else {
      NothingRecent(times, now, window);
      m := |times|;
    }
  }

  lemma {:induction false} NothingRecent(times: seq<int>, now: int, window: int)
    requires Sorted(times) && |times| > 0 && !Recent(times[|times| - 1], now, window)
    ensures Prune(times, now, window) == []
    ensures forall j :: 0 <= j < |times| ==> !Recent(times[j], now, window)
  {
    var init := times[..|times| - 1];
    var last := times[|times| - 1];
    assert Prune(times, now, window) == Prune(init, now, window);
    if |init| > 0 {
      assert Sorted(init) by {
        forall i, j | 0 <= i < j < |init|
          ensures init[i] <= init[j]
        {
          assert init[i] == times[i] && init[j] == times[j];
        }
      }
      assert init[|init| - 1] <= last;
      NothingRecent(init, now, window);
    }
    forall j | 0 <= j < |times|
      ensures !Recent(times[j], now, window)
    {
      assert times[j] <= last;
    }
  }
}
