/**
  Specification of the sliding-window request-rate tracker shared by the RPS
  middleware and the content-moderation service.

  A buffer is a sequence of request timestamps, oldest first. It behaves like
  Python's `collections.deque(maxlen = cap)`: appending to a full buffer drops
  its oldest entry. A rate query first evicts stale timestamps from the front,
  then turns what is left into a rate.
*/
module SlidingWindow {

  /** The timestamps are in ascending (non-decreasing) order. */
  predicate Sorted(s: seq<real>) {
    forall i, j :: 0 <= i <= j < |s| ==> s[i] <= s[j]
  }

  /** Every timestamp of `s` is at or before `t`. */
  predicate AllAtOrBefore(s: seq<real>, t: real) {
    forall i :: 0 <= i < |s| ==> s[i] <= t
  }

  /** The most recent `n` elements of the history `h` (all of `h` when it is shorter). */
  function LastN(h: seq<real>, n: nat): (r: seq<real>)
    ensures |r| <= n && |r| <= |h|
    ensures |r| == n || |r| == |h|
  {
    if |h| <= n then h else h[|h| - n..]
  }

  /**
    `deque(maxlen = cap).append(x)`: the new timestamp becomes the last
    element; when the buffer is already full, its first (oldest) element is
    dropped. With `cap == 0` every item is discarded at once.
  */
  function Push(s: seq<real>, cap: nat, x: real): (r: seq<real>)
    requires |s| <= cap
    ensures |r| <= cap
    ensures |r| == if |s| < cap then |s| + 1 else |s|
    ensures cap > 0 ==> r[|r| - 1] == x
  {
    if |s| < cap then s + [x]
    else if cap == 0 then s
    else s[1..] + [x]
  }

  /** A bounded buffer always holds exactly the last `cap` timestamps appended to it. */
  lemma PushIsLastN(h: seq<real>, cap: nat, x: real)
    ensures Push(LastN(h, cap), cap, x) == LastN(h + [x], cap)
  {
    var l := LastN(h, cap);
    var hx := h + [x];
    if |h| < cap {
      assert l == h;
    } else if cap == 0 {
    } else {
      assert hx[|hx| - cap..] == l[1..] + [x];
    }
  }

  /** Appending a timestamp no earlier than those buffered keeps the buffer ascending. */
  lemma PushSorted(s: seq<real>, cap: nat, x: real)
    requires |s| <= cap && Sorted(s) && AllAtOrBefore(s, x)
    ensures Sorted(Push(s, cap, x)) && AllAtOrBefore(Push(s, cap, x), x)
  {
  }

  /**
    The eviction loop `while buf and buf[0] < cutoff: buf.popleft()`: stale
    timestamps are removed from the front only, and the loop stops at the
    first timestamp that is at or after the cutoff.
  */
  function EvictStale(s: seq<real>, cutoff: real): (r: seq<real>)
    ensures |r| <= |s|
    ensures r == [] || r[0] >= cutoff
    ensures forall i :: 0 <= i < |s| - |r| ==> s[i] < cutoff
    decreases |s|
  {
    if s != [] && s[0] < cutoff then EvictStale(s[1..], cutoff) else s
  }

  /** Eviction removes from the front only: what is left is a suffix of the buffer. */
  lemma {:induction false} EvictStaleIsSuffix(s: seq<real>, cutoff: real)
    ensures EvictStale(s, cutoff) == s[|s| - |EvictStale(s, cutoff)|..]
    decreases |s|
  {
    if s != [] && s[0] < cutoff {
      EvictStaleIsSuffix(s[1..], cutoff);
      assert s[1..][|s| - 1 - |EvictStale(s[1..], cutoff)|..] == s[|s| - |EvictStale(s[1..], cutoff)|..];
    }
  }

  /** The timestamps of `s` at or after `cutoff`, in their original order. */
  function Recent(s: seq<real>, cutoff: real): seq<real>
    decreases |s|
  {
    if s == [] then []
    else (if s[0] >= cutoff then [s[0]] else []) + Recent(s[1..], cutoff)
  }

  /** A buffer with nothing stale is kept whole. */
  lemma {:induction false} RecentAllFresh(s: seq<real>, cutoff: real)
    requires forall i :: 0 <= i < |s| ==> s[i] >= cutoff
    ensures Recent(s, cutoff) == s
    decreases |s|
  {
    if s != [] {
      RecentAllFresh(s[1..], cutoff);
    }
  }

  /**
    On an ascending buffer the front-only eviction removes exactly the stale
    timestamps: what is left is every timestamp at or after the cutoff, in
    order.
  */
  lemma {:induction false} EvictStaleSortedIsRecent(s: seq<real>, cutoff: real)
    requires Sorted(s)
    ensures EvictStale(s, cutoff) == Recent(s, cutoff)
    ensures forall i :: 0 <= i < |EvictStale(s, cutoff)| ==> EvictStale(s, cutoff)[i] >= cutoff
    decreases |s|
  {
    if s != [] {
      if s[0] < cutoff {
        EvictStaleSortedIsRecent(s[1..], cutoff);
      } else {
        RecentAllFresh(s, cutoff);
      }
    }
  }

  /** Eviction keeps an ascending buffer ascending. */
  lemma EvictStaleSorted(s: seq<real>, cutoff: real)
    requires Sorted(s)
    ensures Sorted(EvictStale(s, cutoff))
  {
  }

  /** Evicting twice at the same time removes nothing more. */
  lemma EvictStaleIdempotent(s: seq<real>, cutoff: real)
    ensures EvictStale(EvictStale(s, cutoff), cutoff) == EvictStale(s, cutoff)
  {
  }

  /**
    A front run of stale timestamps can be skipped before evicting: the
    eviction removes it anyway.
  */
  lemma {:induction false} EvictStaleSkipsStalePrefix(s: seq<real>, k: nat, cutoff: real)
    requires k <= |s|
    requires forall i :: 0 <= i < k ==> s[i] < cutoff
    ensures EvictStale(s, cutoff) == EvictStale(s[k..], cutoff)
    decreases k
  {
    if k > 0 {
      assert s[1..][k - 1..] == s[k..];
      EvictStaleSkipsStalePrefix(s[1..], k - 1, cutoff);
    }
  }

  /**
    `_calculate_rps`: zero for an empty buffer and for a zero span; otherwise
    the number of buffered timestamps divided by the time elapsed since the
    oldest one.
  */
  function TrailingRate(s: seq<real>, now: real): (rate: real)
    ensures rate == 0.0 <==> s == [] || now == s[0]
    ensures s != [] && now != s[0] ==> rate * (now - s[0]) == |s| as real
    ensures s != [] && now > s[0] ==> rate > 0.0
  {
    if s == [] then 0.0
    else if now - s[0] == 0.0 then 0.0
    else |s| as real / (now - s[0])
  }

  /**
    Once the stale timestamps are gone and time has moved past the oldest
    timestamp, the span is at most the window, so the trailing rate is never
    below the count spread over the whole window.
  */
  lemma TrailingRateAtLeastCountOverWindow(s: seq<real>, now: real, window: real)
    requires s != [] && now > s[0] && s[0] >= now - window
    ensures window > 0.0
    ensures TrailingRate(s, now) >= |s| as real / window
  {
    var rate, span := TrailingRate(s, now), now - s[0];
    assert rate * span == |s| as real;
    assert rate * window >= rate * span by {
      assert rate * (window - span) >= 0.0;
    }
  }

  /**
    At zero span the bound fails: a lone timestamp read at its own time
    survives eviction, yet the rate is 0, below one request per window.
  */
  lemma TrailingRateBelowCountOverWindowAtZeroSpan(t: real, window: real)
    requires window > 0.0
    ensures EvictStale([t], t - window) == [t]
    ensures TrailingRate([t], t) == 0.0 < 1.0 / window
  {
  }

  /**
    The locked block of `dispatch`: record the current time, evict the
    timestamps older than `now - window`, then read the rate.
  */
  function Step(s: seq<real>, cap: nat, window: real, now: real): (r: seq<real>)
    requires |s| <= cap
    ensures |r| <= cap
  {
    EvictStale(Push(s, cap, now), now - window)
  }

  /**
    With a non-negative window and room for at least one timestamp, the time
    just recorded survives the eviction: the buffer is non-empty when the rate
    is read, and a lone timestamp gives rate zero.
  */
  lemma StepKeepsCurrentTime(s: seq<real>, cap: nat, window: real, now: real)
    requires |s| <= cap && cap > 0 && window >= 0.0
    ensures Step(s, cap, window, now) != []
    ensures Step(s, cap, window, now)[|Step(s, cap, window, now)| - 1] == now
    ensures |Step(s, cap, window, now)| == 1 ==> TrailingRate(Step(s, cap, window, now), now) == 0.0
  {
    var p := Push(s, cap, now);
    assert p[|p| - 1] == now;
    EvictStaleIsSuffix(p, now - window);
  }

  /**
    With a negative window the cutoff lies after the current time, so a
    buffer of timestamps no later than `now` is emptied by every step.
  */
  lemma StepNegativeWindowEmpties(s: seq<real>, cap: nat, window: real, now: real)
    requires |s| <= cap && window < 0.0 && AllAtOrBefore(s, now)
    ensures Step(s, cap, window, now) == []
  {
    var p := Push(s, cap, now);
    assert AllAtOrBefore(p, now);
    var r := EvictStale(p, now - window);
    EvictStaleIsSuffix(p, now - window);
    if r != [] {
      assert false;
    }
  }

  /** A step keeps an ascending buffer ascending when the clock does not go back. */
  lemma StepSorted(s: seq<real>, cap: nat, window: real, now: real)
    requires |s| <= cap && Sorted(s) && AllAtOrBefore(s, now)
    ensures Sorted(Step(s, cap, window, now))
  {
    PushSorted(s, cap, now);
    EvictStaleSorted(Push(s, cap, now), now - window);
  }

  /**
    Evicting at an earlier cutoff before a push changes nothing once the
    later cutoff is applied after it: whatever the early eviction removed
    would be removed by the later one, and the push drops the oldest entry
    only when nothing was removed.
  */
  lemma EarlierEvictionAbsorbed(l: seq<real>, cap: nat, cutoff: real, cutoff': real, x: real)
    requires |l| <= cap && cutoff <= cutoff'
    ensures EvictStale(Push(EvictStale(l, cutoff), cap, x), cutoff') == EvictStale(Push(l, cap, x), cutoff')
  {
    var b := EvictStale(l, cutoff);
    var k := |l| - |b|;
    EvictStaleIsSuffix(l, cutoff);
    if k == 0 {
      assert b == l;
    } else if |l| < cap {
      StaleRunThenPush(l, k, cap, x, cutoff');
    } else {
      StaleRunThenPushFull(l, k, cap, x, cutoff');
    }
  }

  /** Helper for EarlierEvictionAbsorbed: the buffer had room for the new timestamp. */
  lemma StaleRunThenPush(l: seq<real>, k: nat, cap: nat, x: real, cutoff: real)
    requires |l| < cap && k <= |l|
    requires forall i :: 0 <= i < k ==> l[i] < cutoff
    ensures EvictStale(Push(l[k..], cap, x), cutoff) == EvictStale(Push(l, cap, x), cutoff)
  {
    var pushed := l + [x];
    assert pushed[k..] == l[k..] + [x];
    EvictStaleSkipsStalePrefix(pushed, k, cutoff);
  }

  /** Helper for EarlierEvictionAbsorbed: the buffer was full, and a stale run of length `k > 0` leads it. */
  lemma StaleRunThenPushFull(l: seq<real>, k: nat, cap: nat, x: real, cutoff: real)
    requires |l| == cap && 0 < k <= |l|
    requires forall i :: 0 <= i < k ==> l[i] < cutoff
    ensures EvictStale(Push(l[k..], cap, x), cutoff) == EvictStale(Push(l, cap, x), cutoff)
  {
    var pushed := l[1..] + [x];
    assert pushed[k - 1..] == l[k..] + [x];
    EvictStaleSkipsStalePrefix(pushed, k - 1, cutoff);
  }

  /**
    The buffer the tracker should hold at time `now` after the requests of
    the history `h` (oldest first): the most recent `cap` of them, minus those
    older than `now - window`.
  */
  function WindowAt(h: seq<real>, cap: nat, window: real, now: real): seq<real>
  {
    EvictStale(LastN(h, cap), now - window)
  }

  /** The first request takes an empty tracker to the window of a one-request history. */
  lemma StepFromEmpty(cap: nat, window: real, now: real)
    ensures Step([], cap, window, now) == WindowAt([now], cap, window, now)
  {
    PushIsLastN([], cap, now);
  }

  /**
    A step keeps the tracker at the window of its history when the clock does
    not go back. The capacity bound and the window bound are applied one after
    the other, so a request still inside the window is gone once `cap` newer
    requests have arrived.
  */
  lemma StepAdvancesWindow(h: seq<real>, cap: nat, window: real, last: real, now: real)
    requires last <= now
    ensures Step(WindowAt(h, cap, window, last), cap, window, now) == WindowAt(h + [now], cap, window, now)
  {
    var l, c, c' := LastN(h, cap), last - window, now - window;
    var w := EvictStale(l, c);
    assert |w| <= cap;
    assert WindowAt(h, cap, window, last) == w;
    assert Step(w, cap, window, now) == EvictStale(Push(w, cap, now), c');
    EarlierEvictionAbsorbed(l, cap, c, c', now);
    PushIsLastN(h, cap, now);
    assert WindowAt(h + [now], cap, window, now) == EvictStale(LastN(h + [now], cap), c');
  }

  /**
    The step of a tracker that holds the window of its history (empty for an
    empty history) is the window of the extended history, provided the clock
    has not gone back since the last request.
  */
  lemma StepExtendsWindow(h: seq<real>, s: seq<real>, cap: nat, window: real, last: real, now: real)
    requires |s| <= cap
    requires h == [] ==> s == []
    requires h != [] ==> s == WindowAt(h, cap, window, last) && last <= now
    ensures Step(s, cap, window, now) == WindowAt(h + [now], cap, window, now)
  {
    if h == [] {
      assert h + [now] == [now];
      StepFromEmpty(cap, window, now);
    } else {
      StepAdvancesWindow(h, cap, window, last, now);
    }
  }

  /** The suffix of an ascending history is ascending. */
  lemma LastNSorted(h: seq<real>, cap: nat)
    requires Sorted(h)
    ensures Sorted(LastN(h, cap))
  {
    var l := LastN(h, cap);
    var d := |h| - |l|;
    forall i, j | 0 <= i <= j < |l| ensures l[i] <= l[j] {
      assert l[i] == h[d + i] && l[j] == h[d + j];
    }
  }

  /**
    The same state described without the eviction loop: for an ascending
    history, exactly the timestamps among the last `cap` requests that are
    within the window, in arrival order.
  */
  lemma WindowAtIsRecent(h: seq<real>, cap: nat, window: real, now: real)
    requires Sorted(h)
    ensures WindowAt(h, cap, window, now) == Recent(LastN(h, cap), now - window)
  {
    LastNSorted(h, cap);
    EvictStaleSortedIsRecent(LastN(h, cap), now - window);
  }
}
