/** The history of power states (os/pm/pm_metrics.c): pruning, and the time spent in each state. */
module PmMetrics {

  /** time_t is uint32_t. */
  const WRAP: nat := 0x1_0000_0000

  /** From `at` on the domain was in `state`. */
  datatype Change = Change(state: nat, at: nat)

  function Minus(a: nat, b: nat): nat
    requires a < WRAP && b < WRAP
  {
    if a >= b then a - b else a + WRAP - b
  }

  function TimeDiff(a: nat, b: nat): nat { if a > b then a - b else b - a }

  predicate Sorted(h: seq<Change>) {
    forall i, j | 0 <= i < j < |h| :: h[i].at <= h[j].at
  }

  function Last(h: seq<Change>): Change
    requires h != []
  {
    h[|h| - 1]
  }

  /** The state at instant `t`: that of the latest change not after it. */
  function StateAt(h: seq<Change>, t: int): nat
    requires h != []
    decreases |h|
  {
    if |h| > 1 && h[1].at <= t then StateAt(h[1..], t) else h[0].state
  }

  /** The seconds of [lo, hi) spent in state `s`. */
  ghost function Seconds(h: seq<Change>, s: nat, lo: int, hi: int): nat
    requires h != []
    decreases hi - lo
  {
    if lo >= hi then 0 else Seconds(h, s, lo, hi - 1) + if StateAt(h, hi - 1) == s then 1 else 0
  }

  // ---------------------------------------------------------------- pruning

  function Pruned(h: seq<Change>, ref: nat): (p: seq<Change>)
    ensures |p| <= |h|
    decreases |h|
  {
    if |h| > 1 && h[1].at < ref then Pruned(h[1..], ref) else h
  }

  lemma {:induction false} PrunedIsSuffix(h: seq<Change>, ref: nat)
    requires h != []
    ensures var p := Pruned(h, ref);
            p != [] && p == h[|h| - |p|..] && (|p| < |h| ==> p[0].at < ref) && (|p| > 1 ==> p[1].at >= ref)
    decreases |h|
  {
    if |h| > 1 && h[1].at < ref {
      PrunedIsSuffix(h[1..], ref);
      var p := Pruned(h, ref);
      assert h[1..][|h| - 1 - |p|..] == h[|h| - |p|..];
    }
  }

  lemma {:induction false} PrunedState(h: seq<Change>, ref: nat, t: int)
    requires h != [] && t >= ref
    ensures Pruned(h, ref) != [] && StateAt(Pruned(h, ref), t) == StateAt(h, t)
    decreases |h|
  {
    if |h| > 1 && h[1].at < ref { PrunedState(h[1..], ref, t); }
  }

  /** Pruning drops only changes that no instant from `ref` on can see, and all of them: it never
      empties the history, keeps its last entry, keeps the state at every such instant, and
      leaves at most one entry older than `ref`. */
  lemma {:induction false} PruningIsInvisible(h: seq<Change>, ref: nat)
    requires h != [] && Sorted(h)
    ensures var p := Pruned(h, ref);
            p != [] && Sorted(p) && p == h[|h| - |p|..] && Last(p) == Last(h) && (p == h || p[0].at < ref)
            && (forall i | 0 < i < |p| :: p[i].at >= ref)
            && (forall t: int | t >= ref :: StateAt(p, t) == StateAt(h, t))
  {
    hide Pruned, StateAt;
    PrunedIsSuffix(h, ref);
    forall t: int | t >= ref ensures StateAt(Pruned(h, ref), t) == StateAt(h, t) {
      PrunedState(h, ref, t);
    }
  }

  // ---------------------------------------------------------------- time in state

  /** What one turn of the metrics loop adds for entry `i`. `isfirst` is never cleared before the
      end of the list, so the last entry always gets the whole window. */
  function ToAdd(h: seq<Change>, i: nat, cur: nat, ref: nat): int
    requires i < |h|
  {
    if i + 1 == |h| then TimeDiff(cur, ref)
    else if ref >= h[i].at && h[i + 1].at >= ref then h[i + 1].at - ref
    else h[i + 1].at - h[i].at
  }

  function Total(h: seq<Change>, s: nat, cur: nat, ref: nat, n: nat): int
    requires n <= |h|
  {
    if n == 0 then 0 else Total(h, s, cur, ref, n - 1) + if h[n - 1].state == s then ToAdd(h, n - 1, cur, ref) else 0
  }

  function Max(a: int, b: int): int { if a > b then a else b }

  lemma {:induction false} StateBetween(h: seq<Change>, i: nat, t: int)
    requires Sorted(h) && i < |h| && h[i].at <= t && (i + 1 < |h| ==> t < h[i + 1].at)
    ensures StateAt(h, t) == h[i].state
    decreases |h|
  {
    if i > 0 {
      assert h[1].at <= h[i].at;
      assert Sorted(h[1..]) by { assert forall j | 0 <= j < |h| - 1 :: h[1..][j] == h[j + 1]; }
      StateBetween(h[1..], i - 1, t);
    }
  }

  /** While entry `i` is in force every second counts for its state. */
  lemma {:induction false} SecondsBetween(h: seq<Change>, s: nat, i: nat, lo: int, hi: int)
    requires Sorted(h) && i < |h| && h[i].at <= lo <= hi && (i + 1 < |h| ==> hi <= h[i + 1].at)
    ensures Seconds(h, s, lo, hi) == if h[i].state == s then hi - lo else 0
    decreases hi - lo
  {
    if lo < hi {
      SecondsBetween(h, s, i, lo, hi - 1);
      StateBetween(h, i, hi - 1);
    }
  }

  lemma {:induction false} SecondsSplit(h: seq<Change>, s: nat, lo: int, mid: int, hi: int)
    requires h != [] && lo <= mid <= hi
    ensures Seconds(h, s, lo, hi) == Seconds(h, s, lo, mid) + Seconds(h, s, mid, hi)
    decreases hi - mid
  {
    if mid < hi { SecondsSplit(h, s, lo, mid, hi - 1); }
  }

  /** A pruned history seen at `cur`, with the window [ref, cur]. */
  predicate Window(h: seq<Change>, cur: nat, ref: nat) {
    && h != [] && Sorted(h) && ref <= cur && Last(h).at <= cur
    && forall i | 0 < i < |h| :: h[i].at >= ref
  }

  /** Up to the last entry the totals are the exact seconds in each state. */
  lemma {:induction false} TotalUpTo(h: seq<Change>, s: nat, cur: nat, ref: nat, n: nat)
    requires Window(h, cur, ref) && n < |h|
    ensures Total(h, s, cur, ref, n) == Seconds(h, s, Max(ref, h[0].at), Max(Max(ref, h[0].at), h[n].at))
    decreases n
  {
    if n > 0 {
      TotalUpTo(h, s, cur, ref, n - 1);
      var lo := Max(ref, h[0].at);
      var mid := Max(lo, h[n - 1].at);
      assert h[0].at <= h[n - 1].at <= h[n].at;
      SecondsSplit(h, s, lo, mid, h[n].at);
      SecondsBetween(h, s, n - 1, mid, h[n].at);
    }
  }

  /** The exact result as the code computes it: real seconds up to the last change, and the
      whole window once more for the state of the last entry. */
  lemma {:induction false} TotalExact(h: seq<Change>, s: nat, cur: nat, ref: nat)
    requires Window(h, cur, ref)
    ensures Total(h, s, cur, ref, |h|) ==
            Seconds(h, s, Max(ref, h[0].at), Last(h).at) + if Last(h).state == s then cur - ref else 0
  {
    TotalUpTo(h, s, cur, ref, |h| - 1);
    assert |h| == 1 && ref > h[0].at ==> Seconds(h, s, ref, h[0].at) == Seconds(h, s, ref, ref) == 0;
  }

  lemma {:induction false} SecondsAddUp(h: seq<Change>, lo: int, hi: int)
    requires h != [] && forall i | 0 <= i < |h| :: h[i].state < 4
    ensures Seconds(h, 0, lo, hi) + Seconds(h, 1, lo, hi) + Seconds(h, 2, lo, hi) + Seconds(h, 3, lo, hi)
            == if lo < hi then hi - lo else 0
    decreases hi - lo
  {
    if lo < hi {
      SecondsAddUp(h, lo, hi - 1);
      StateIsKnown(h, hi - 1);
    }
  }

  lemma {:induction false} StateIsKnown(h: seq<Change>, t: int)
    requires h != [] && forall i | 0 <= i < |h| :: h[i].state < 4
    ensures StateAt(h, t) < 4
    decreases |h|
  {
    if |h| > 1 { StateIsKnown(h[1..], t); }
  }

  /** The four totals add up to the window plus the stretch from its start to the last change. */
  lemma {:induction false} TotalsAddUp(h: seq<Change>, cur: nat, ref: nat)
    requires Window(h, cur, ref) && forall i | 0 <= i < |h| :: h[i].state < 4
    ensures Total(h, 0, cur, ref, |h|) + Total(h, 1, cur, ref, |h|)
            + Total(h, 2, cur, ref, |h|) + Total(h, 3, cur, ref, |h|)
            == (cur - ref) + if |h| > 1 then Last(h).at - Max(ref, h[0].at) else 0
  {
    TotalExact(h, 0, cur, ref);
    TotalExact(h, 1, cur, ref);
    TotalExact(h, 2, cur, ref);
    TotalExact(h, 3, cur, ref);
    SecondsAddUp(h, Max(ref, h[0].at), Last(h).at);
    assert |h| > 1 ==> h[0].at <= Last(h).at && ref <= Last(h).at;
  }

  /** The totals are the true times in state since the start of the window exactly when the last
      change is not inside it. */
  lemma {:induction false} TotalsTrueIff(h: seq<Change>, cur: nat, ref: nat)
    requires Window(h, cur, ref)
    ensures (forall s: nat :: Total(h, s, cur, ref, |h|) == Seconds(h, s, Max(ref, h[0].at), cur))
            <==> Last(h).at <= ref
  {
    var lo, last := Max(ref, h[0].at), Last(h);
    forall s: nat
      ensures Total(h, s, cur, ref, |h|) - Seconds(h, s, lo, cur) ==
              if last.state == s then (cur - ref) - (cur - Max(lo, last.at)) else 0
    {
      TotalExact(h, s, cur, ref);
      SecondsSplit(h, s, lo, Max(lo, last.at), cur);
      SecondsBetween(h, s, |h| - 1, Max(lo, last.at), cur);
      assert last.at <= lo ==> Seconds(h, s, lo, last.at) == 0 == Seconds(h, s, lo, lo);
    }
    assert Max(lo, last.at) == ref <==> last.at <= ref by { assert h[0].at <= last.at; }
    if last.at > ref {
      assert Total(h, last.state, cur, ref, |h|) != Seconds(h, last.state, lo, cur);
    }
  }

  /** Before the clock has reached the window's length, ref wraps around: everything but the last
      entry is pruned and its state is credited with 2^32 minus the window. */
  lemma {:induction false} EarlyClock(h: seq<Change>, cur: nat, window: nat)
    requires h != [] && Sorted(h) && Last(h).at <= cur < window < WRAP
    ensures var ref := Minus(cur, window);
            Pruned(h, ref) == [Last(h)] && Total([Last(h)], Last(h).state, cur, ref, 1) == WRAP - window
    decreases |h|
  {
    var ref := Minus(cur, window);
    if |h| > 1 {
      assert Sorted(h[1..]) by { assert forall i | 0 <= i < |h| - 1 :: h[1..][i] == h[i + 1]; }
      assert h[1].at <= Last(h).at;
      EarlyClock(h[1..], cur, window);
    }
    assert Total([Last(h)], Last(h).state, cur, ref, 0) == 0;
  }

  /** From its first entry on, the pruned history tells the same states as the whole one. */
  lemma {:induction false} PrunedStateFrom(h: seq<Change>, ref: nat, t: int)
    requires h != [] && Sorted(h) && Pruned(h, ref) != [] && Pruned(h, ref)[0].at <= t
    ensures StateAt(Pruned(h, ref), t) == StateAt(h, t)
    decreases |h|
  {
    if |h| > 1 && h[1].at < ref {
      var p := Pruned(h, ref);
      PrunedIsSuffix(h[1..], ref);
      assert Sorted(h[1..]) by { assert forall i | 0 <= i < |h| - 1 :: h[1..][i] == h[i + 1]; }
      assert p[0] == h[|h| - |p|] && h[1].at <= h[|h| - |p|].at;
      PrunedStateFrom(h[1..], ref, t);
    }
  }

  lemma {:induction false} SecondsOfPruned(h: seq<Change>, ref: nat, s: nat, lo: int, hi: int)
    requires h != [] && Sorted(h) && Pruned(h, ref) != [] && Pruned(h, ref)[0].at <= lo
    ensures Seconds(Pruned(h, ref), s, lo, hi) == Seconds(h, s, lo, hi)
    decreases hi - lo
  {
    hide Pruned, StateAt, Sorted;
    if lo < hi {
      SecondsOfPruned(h, ref, s, lo, hi - 1);
      PrunedStateFrom(h, ref, hi - 1);
    }
  }

  /** The seconds since `lo` that the history tells up to its last change, and the window for the state it
      ends with. */
  ghost function TimeIn(h: seq<Change>, s: nat, lo: int, window: nat): int
    requires h != []
  {
    Seconds(h, s, lo, Last(h).at) + if Last(h).state == s then window else 0
  }

  /** What the metrics mean for the history before pruning, when the clock read `cur` for the window
      and `later` for the pruning: real seconds from the start of the window (or of what pruning
      left) to the last change, and the whole window for the last state. */
  lemma {:induction false} MetricsOfHistory(h: seq<Change>, s: nat, cur: nat, window: nat, later: nat)
    requires h != [] && Sorted(h) && window <= cur <= later && Last(h).at <= cur
    ensures var ref, p := cur - window, Pruned(h, later - window);
            Window(p, cur, ref) &&
            Total(p, s, cur, ref, |p|) == TimeIn(h, s, Max(ref, p[0].at), window)
  {
    hide Seconds, StateAt, Total, Pruned, Sorted, Window;
    var ref, p := cur - window, Pruned(h, later - window);
    WindowLater(h, cur, window, later);
    PrunedEnds(h, later - window);
    TotalExact(p, s, cur, ref);
    SecondsOfPruned(h, later - window, s, Max(ref, p[0].at), Last(h).at);
  }

  lemma {:induction false} PrunedEnds(h: seq<Change>, ref: nat)
    requires h != [] && Sorted(h)
    ensures var p := Pruned(h, ref); p != [] && Last(p) == Last(h) && h[0].at <= p[0].at <= Last(h).at
    ensures Max(ref, Pruned(h, ref)[0].at) == Max(ref, h[0].at)
  {
    hide StateAt, Pruned;
    var p := Pruned(h, ref);
    PruningIsInvisible(h, ref);
    assert h[0].at <= h[|h| - |p|].at <= Last(h).at;
  }

  lemma {:induction false} SecondsPositive(h: seq<Change>, lo: int, hi: int)
    requires h != [] && lo < hi
    ensures Seconds(h, StateAt(h, lo), lo, hi) > 0
  {
    SecondsSplit(h, StateAt(h, lo), lo, lo + 1, hi);
    assert Seconds(h, StateAt(h, lo), lo, lo) == 0;
  }

  /** The totals that pruning at the same clock reading would give. */
  ghost function FullTotal(h: seq<Change>, s: nat, cur: nat, window: nat): int
    requires h != [] && window <= cur
  {
    TimeIn(h, s, Max(cur - window, h[0].at), window)
  }

  /** One clock reading: nothing is lost by pruning. Two: exactly when the pruning at the second has
      not cut into the window of the first. */
  lemma {:induction false} FullHistoryIff(h: seq<Change>, cur: nat, window: nat, later: nat)
    requires h != [] && Sorted(h) && window <= cur <= later && Last(h).at <= cur
    ensures var p := Pruned(h, later - window);
            p != [] &&
            ((forall s: nat :: Total(p, s, cur, cur - window, |p|) == FullTotal(h, s, cur, window)) <==>
             p[0].at <= Max(cur - window, h[0].at))
    ensures later == cur ==> Pruned(h, later - window)[0].at <= Max(cur - window, h[0].at)
  {
    hide Seconds, StateAt, Total, Pruned, Sorted, Window;
    var ref, p, lo := cur - window, Pruned(h, later - window), Max(cur - window, h[0].at);
    PrunedEnds(h, later - window);
    forall s: nat
      ensures Total(p, s, cur, ref, |p|) - FullTotal(h, s, cur, window) ==
              Seconds(h, s, Max(ref, p[0].at), Last(h).at) - Seconds(h, s, lo, Last(h).at)
    {
      MetricsOfHistory(h, s, cur, window, later);
    }
    if p[0].at > lo {
      var s := StateAt(h, lo);
      SecondsSplit(h, s, lo, p[0].at, Last(h).at);
      SecondsPositive(h, lo, p[0].at);
      assert Total(p, s, cur, ref, |p|) != FullTotal(h, s, cur, window);
    }
  }

  /** Pruning may happen a little later than the metrics' own clock reading. */
  lemma {:induction false} WindowLater(h: seq<Change>, cur: nat, window: nat, later: nat)
    requires h != [] && Sorted(h) && window <= cur <= later && Last(h).at <= cur
    ensures Window(Pruned(h, later - window), cur, cur - window)
  {
    hide StateAt;
    PruningIsInvisible(h, later - window);
  }

  /** The four totals of struct pm_time_in_each_s. */
  datatype TimeInEach = TimeInEach(normal: int, idle: int, standby: int, sleep: int)

  function Add(m: TimeInEach, state: nat, t: int): TimeInEach {
    if state == 0 then m.(normal := m.normal + t)
    else if state == 1 then m.(idle := m.idle + t)
    else if state == 2 then m.(standby := m.standby + t)
    else if state == 3 then m.(sleep := m.sleep + t)
    else m
  }

  function Totals(h: seq<Change>, cur: nat, ref: nat, n: nat): TimeInEach
    requires n <= |h|
  {
    TimeInEach(Total(h, 0, cur, ref, n), Total(h, 1, cur, ref, n), Total(h, 2, cur, ref, n), Total(h, 3, cur, ref, n))
  }

  lemma TotalsStep(h: seq<Change>, cur: nat, ref: nat, i: nat)
    requires i < |h|
    ensures Totals(h, cur, ref, 0) == TimeInEach(0, 0, 0, 0)
    ensures Totals(h, cur, ref, i + 1) == Add(Totals(h, cur, ref, i), h[i].state, ToAdd(h, i, cur, ref))
  {
  }

  /** Each of the four fields is the time of its own state. */
  lemma {:induction false} TotalsMean(h: seq<Change>, cur: nat, window: nat, later: nat)
    requires h != [] && Sorted(h) && window <= cur <= later && Last(h).at <= cur
    ensures var p, ref := Pruned(h, later - window), cur - window;
            Window(p, cur, ref) &&
            var m, lo := Totals(p, cur, ref, |p|), Max(ref, p[0].at);
            && m.normal == TimeIn(h, 0, lo, window) && m.idle == TimeIn(h, 1, lo, window)
            && m.standby == TimeIn(h, 2, lo, window) && m.sleep == TimeIn(h, 3, lo, window)
  {
    hide Pruned, Sorted, Window, Seconds, Total;
    MetricsOfHistory(h, 0, cur, window, later);
    MetricsOfHistory(h, 1, cur, window, later);
    MetricsOfHistory(h, 2, cur, window, later);
    MetricsOfHistory(h, 3, cur, window, later);
    PrunedEnds(h, later - window);
  }

  /** The history queue of a domain. `duration` is CONFIG_PM_METRICS_DURATION. */
  class History {
    const duration: nat
    var entries: seq<Change>

    ghost predicate Valid()
      reads this
    {
      duration < WRAP && entries != [] && Sorted(entries)
    }

    /** pm_initialize for one domain: the history starts with the normal state. */
    constructor (duration: nat, now: nat)
      requires duration < WRAP
      ensures Valid() && entries == [Change(0, now)] && this.duration == duration
    {
      this.duration, entries := duration, [Change(0, now)];
    }

    /** pm_prune_history at clock `now`. */
    method Prune(now: nat)
      requires Valid() && now < WRAP
      modifies this
      ensures Valid() && entries == Pruned(old(entries), Minus(now, duration))
    {
      PruningIsInvisible(entries, Minus(now, duration));
      while |entries| > 1
        invariant Pruned(entries, Minus(now, duration)) == Pruned(old(entries), Minus(now, duration))
        decreases |entries|
      {
        if entries[1].at < Minus(now, duration) {
          entries := entries[1..];
        } else {
          break;
        }
      }
    }

    /** pm_get_domainmetrics; pruning reads the clock again, at `later`. */
    method Metrics(cur: nat, later: nat) returns (m: TimeInEach)
      requires Valid() && cur < WRAP && later < WRAP
      modifies this
      ensures Valid() && entries == Pruned(old(entries), Minus(later, duration))
      ensures m == Totals(entries, cur, Minus(cur, duration), |entries|)
      ensures duration <= cur <= later && Last(old(entries)).at <= cur ==>
                var h, ref := old(entries), cur - duration;
                && Window(entries, cur, ref)
                && m.normal == TimeIn(h, 0, Max(ref, entries[0].at), duration)
                && m.idle == TimeIn(h, 1, Max(ref, entries[0].at), duration)
                && m.standby == TimeIn(h, 2, Max(ref, entries[0].at), duration)
                && m.sleep == TimeIn(h, 3, Max(ref, entries[0].at), duration)
    {
      hide Totals, Add, Pruned, Sorted, Window, Seconds;
      if duration <= cur <= later && Last(entries).at <= cur {
        TotalsMean(entries, cur, duration, later);
      }
      var ref := Minus(cur, duration);
      Prune(later);
      m := TimeInEach(0, 0, 0, 0);
      ghost var h := entries;
      TotalsStep(h, cur, ref, 0);
      var i := 0;
      while i < |entries|
        invariant i <= |entries| && entries == h && m == Totals(h, cur, ref, i)
      {
        var timetoadd;
        if i + 1 == |entries| {
          timetoadd := TimeDiff(cur, ref);
        } else if ref >= entries[i].at && entries[i + 1].at >= ref {
          timetoadd := entries[i + 1].at - ref;
        } else {
          timetoadd := entries[i + 1].at - entries[i].at;
        }
        TotalsStep(h, cur, ref, i);
        m := Add(m, entries[i].state, timetoadd);
        i := i + 1;
      }
    }

    /** sq_addlast of a state change at clock `now`, which does not run backwards. */
    method Record(state: nat, now: nat)
      requires Valid() && Last(entries).at <= now
      modifies this
      ensures Valid() && entries == old(entries) + [Change(state, now)]
    {
      entries := entries + [Change(state, now)];
    }
  }
}
