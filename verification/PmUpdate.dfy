/** Activity and its assessment (os/pm/pm_activity.c, pm_checkstate.c, pm_update.c): saturating
    activity counts per time slice, a weighted moving average over a ring of earlier values,
    and thresholds with counts that decide which power state to recommend. */
module PmUpdate {

  const INT16_MAX := 32767
  const INT32_MAX := 0x7fff_ffff

  const NORMAL: nat := 0
  const SLEEP: nat := 3

  // ---------------------------------------------------------------- activity per slice

  function Sum(priorities: seq<int>): nat {
    if priorities == [] then 0
    else Sum(priorities[..|priorities| - 1]) + Positive(priorities[|priorities| - 1])
  }

  function Positive(p: int): nat { if p > 0 then p else 0 }

  function Saturated(n: nat): nat { if n > INT16_MAX then INT16_MAX else n }

  /** What a slice adds up to: each report counts once, in whatever order, with its own value if it is
      positive and not at all otherwise; the sample is that sum, or 32767 if it is larger. */
  lemma {:induction false} SumMeans(a: seq<int>, b: seq<int>, p: int)
    ensures Sum([]) == 0 && Sum([p]) == (if p > 0 then p else 0) && Sum(a + b) == Sum(a) + Sum(b)
    ensures Saturated(Sum(a)) <= 32767 && (Saturated(Sum(a)) < 32767 ==> Saturated(Sum(a)) == Sum(a))
    ensures Saturated(Sum(a)) == Sum(a) || Sum(a) > 32767
    decreases |b|
  {
    assert [p][..0] == [];
    if b == [] {
      assert a + b == a;
    } else {
      var n := |b| - 1;
      assert (a + b)[..|a| + n] == a + b[..n];
      SumMeans(a, b[..n], p);
    }
  }

  lemma SumStep(slice: seq<int>, p: int)
    ensures Sum(slice + [p]) == Sum(slice) + Positive(p)
    ensures Saturated(Sum(slice + [p])) == Saturated(Saturated(Sum(slice)) + Positive(p))
  {
    assert (slice + [p])[..|slice|] == slice;
  }

  ghost function Joined(slices: seq<seq<int>>): seq<int> {
    if slices == [] then [] else Joined(slices[..|slices| - 1]) + slices[|slices| - 1]
  }

  lemma JoinedMore(slices: seq<seq<int>>, slice: seq<int>)
    ensures Joined(slices + [slice]) == Joined(slices) + slice
  {
    assert (slices + [slice])[..|slices|] == slices;
  }

  /** The activity fields of a domain. `slice` are the reports since the last sample, `samples`
      the values handed to pm_update and `slices` the reports each of them stands for. */
  class Meter {
    const sliceTicks: nat
    const wrap: nat                    // the range of systime_t
    var accum: nat
    var stime: nat
    ghost var slice: seq<int>
    ghost var slices: seq<seq<int>>
    var samples: seq<nat>

    ghost predicate Valid()
      reads this
    {
      && wrap > 0 && accum == Saturated(Sum(slice)) && |samples| == |slices|
      && forall i | 0 <= i < |samples| :: samples[i] == Saturated(Sum(slices[i]))
    }

    /** Every report ever made, in order. */
    ghost function Reports(): seq<int>
      reads this
    {
      Joined(slices) + slice
    }

    constructor (sliceTicks: nat, wrap: nat)
      requires wrap > 0
      ensures Valid() && samples == [] && slice == [] && stime == 0
      ensures this.sliceTicks == sliceTicks && this.wrap == wrap && Reports() == []
    {
      this.sliceTicks, this.wrap := sliceTicks, wrap;
      accum, stime, slice, slices, samples := 0, 0, [], [], [];
    }

    /** The end of a slice, shared by pm_activity and pm_checkstate. */
    method EndSlice(now: nat)
      requires Valid()
      modifies this
      ensures Valid() && old(samples) <= samples
      ensures (slices, slice, stime) == if (now - old(stime)) % wrap >= sliceTicks
                                        then (old(slices) + [old(slice)], [], now)
                                        else (old(slices), old(slice), old(stime))
      ensures Reports() == old(Reports())
    {
      hide Joined;
      JoinedMore(slices, slice);
      if (now - stime) % wrap >= sliceTicks {
        samples := samples + [accum];
        stime := now;
        accum := 0;
        slices, slice := slices + [slice], [];
      }
    }

    /** pm_activity. */
    method Activity(priority: int, now: nat)
      requires Valid()
      modifies this
      ensures Valid() && old(samples) <= samples
      ensures var all := old(slice) + [priority];
              (slices, slice, stime) == if priority > 0 && (now - old(stime)) % wrap >= sliceTicks
                                        then (old(slices) + [all], [], now)
                                        else (old(slices), all, old(stime))
      ensures Reports() == old(Reports()) + [priority]
    {
      hide Sum, Joined;
      SumStep(slice, priority);
      assert Joined(slices) + (slice + [priority]) == Reports() + [priority];
      slice := slice + [priority];
      if priority > 0 {
        accum := accum + priority;
        if accum > INT16_MAX {
          accum := INT16_MAX;
        }
        EndSlice(now);
      }
    }
  }

  // ---------------------------------------------------------------- the moving average

  function Dot(ws: seq<nat>, xs: seq<nat>): nat
    requires |ws| == |xs|
  {
    if ws == [] then 0 else Dot(ws[..|ws| - 1], xs[..|xs| - 1]) + ws[|ws| - 1] * xs[|xs| - 1]
  }

  function Weight(ws: seq<nat>): nat {
    if ws == [] then 0 else Weight(ws[..|ws| - 1]) + ws[|ws| - 1]
  }

  predicate Within(xs: seq<nat>, lo: nat, hi: nat) {
    forall i | 0 <= i < |xs| :: lo <= xs[i] <= hi
  }

  /** A weighted sum lies between the least and the greatest value times the weight. */
  lemma {:induction false} DotBounds(ws: seq<nat>, xs: seq<nat>, lo: nat, hi: nat)
    requires |ws| == |xs| && Within(xs, lo, hi)
    ensures lo * Weight(ws) <= Dot(ws, xs) <= hi * Weight(ws)
  {
    if ws != [] {
      var n := |ws| - 1;
      DotBounds(ws[..n], xs[..n], lo, hi);
      BoundsStep(Weight(ws[..n]), Dot(ws[..n], xs[..n]), ws[n], xs[n], lo, hi);
    }
  }

  lemma BoundsStep(weight: nat, dot: nat, w: nat, x: nat, lo: nat, hi: nat)
    requires lo * weight <= dot <= hi * weight && lo <= x <= hi
    ensures lo * (weight + w) <= dot + w * x <= hi * (weight + w)
  {
    MulMonotone(w, lo, x);
    MulMonotone(w, x, hi);
    Distribute(lo, weight, w);
    Distribute(hi, weight, w);
  }

  lemma Distribute(a: nat, b: nat, c: nat)
    ensures a * (b + c) == a * b + c * a
  {
  }

  lemma MulMonotone(w: nat, a: nat, b: nat)
    requires a <= b
    ensures w * a <= w * b
  {
  }

  function WeightedSum(coefN: nat, ws: seq<nat>, xs: seq<nat>, x: nat): nat
    requires |ws| == |xs|
  {
    coefN * x + Dot(ws, xs)
  }

  function Average(coefN: nat, ws: seq<nat>, xs: seq<nat>, x: nat): nat
    requires |ws| == |xs| && coefN + Weight(ws) > 0
  {
    WeightedSum(coefN, ws, xs, x) / (coefN + Weight(ws))
  }

  /** The average is the weighted sum divided by the weights, rounded down. */
  lemma AverageIsQuotient(coefN: nat, ws: seq<nat>, xs: seq<nat>, x: nat)
    requires |ws| == |xs| && coefN + Weight(ws) > 0
    ensures var q, w := Average(coefN, ws, xs, x), coefN + Weight(ws);
            q * w <= coefN * x + Dot(ws, xs) < q * w + w
  {
    hide Dot, Weight;
  }

  /** In the weighted sum every value counts with the weight at its place. */
  lemma {:induction false} DotUpdate(ws: seq<nat>, xs: seq<nat>, i: nat, v: nat)
    requires i < |ws| == |xs|
    ensures Dot(ws, xs[i := v]) == Dot(ws, xs) + ws[i] * (v - xs[i])
    decreases |ws|
  {
    var n := |ws| - 1;
    if i == n {
      assert xs[i := v][..n] == xs[..n];
      assert ws[n] * v == ws[n] * xs[n] + ws[n] * (v - xs[n]);
    } else {
      assert xs[i := v][..n] == xs[..n][i := v];
      DotUpdate(ws[..n], xs[..n], i, v);
    }
  }

  /** Zeros add up to nothing, ones to the weights. */
  lemma {:induction false} DotConstant(ws: seq<nat>, c: nat)
    ensures Dot(ws, seq(|ws|, _ => c)) == c * Weight(ws)
  {
    DotBounds(ws, seq(|ws|, _ => c), c, c);
  }

  /** The average lies between the least and the greatest of the values it is taken over. */
  lemma AverageBetween(coefN: nat, ws: seq<nat>, xs: seq<nat>, x: nat, lo: nat, hi: nat)
    requires |ws| == |xs| && coefN + Weight(ws) > 0 && Within(xs, lo, hi) && lo <= x <= hi
    ensures lo <= Average(coefN, ws, xs, x) <= hi
  {
    hide Dot, Weight;
    var w := Weight(ws);
    DotBounds(ws, xs, lo, hi);
    MulMonotone(coefN, lo, x);
    MulMonotone(coefN, x, hi);
    assert lo * (coefN + w) == coefN * lo + lo * w && hi * (coefN + w) == coefN * hi + hi * w;
    DivBetween(WeightedSum(coefN, ws, xs, x), coefN + w, lo, hi);
  }

  lemma DivBetween(total: nat, y: nat, lo: nat, hi: nat)
    requires y > 0 && lo * y <= total <= hi * y
    ensures lo <= total / y <= hi
  {
    var q := total / y;
    assert q * y <= total < q * y + y;
    MulLess(lo, q, y);
    MulLess(q, hi, y);
  }

  lemma MulLess(a: nat, b: nat, y: nat)
    ensures a * y < b * y + y ==> a <= b
  {
    if a > b { MulMonotone(y, b + 1, a); }
  }

  /** The sum of an update stays inside int32_t for all samples exactly when the weights add up
      to at most 65538. */
  lemma SumFitsIff(coefN: nat, ws: seq<nat>)
    ensures (forall xs: seq<nat>, x: nat | |xs| == |ws| && Within(xs, 0, INT16_MAX) && x <= INT16_MAX ::
               WeightedSum(coefN, ws, xs, x) <= INT32_MAX) <==> coefN + Weight(ws) <= 65538
  {
    hide Dot, Weight;
    if coefN + Weight(ws) <= 65538 {
      forall xs: seq<nat>, x: nat | |xs| == |ws| && Within(xs, 0, INT16_MAX) && x <= INT16_MAX
        ensures WeightedSum(coefN, ws, xs, x) <= INT32_MAX
      {
        DotBounds(ws, xs, 0, INT16_MAX);
        MulMonotone(coefN, x, INT16_MAX);
      }
    } else {
      var xs := seq(|ws|, _ => INT16_MAX);
      DotBounds(ws, xs, INT16_MAX, INT16_MAX);
      assert Within(xs, 0, INT16_MAX) && WeightedSum(coefN, ws, xs, INT16_MAX) > INT32_MAX;
    }
  }

  // ---------------------------------------------------------------- thresholds and counts

  /** g_pmenterthresh, g_pmexitthresh and g_pmcount, indexed as in the source. */
  datatype Limits = Limits(enter: seq<int>, exit: seq<int>, count: seq<nat>) {
    predicate Valid() {
      |enter| == |exit| == |count| == 3 && forall i | 0 <= i < 3 :: count[i] < 65536
    }
  }

  datatype Gauge = Gauge(state: nat, recommended: nat, thrcnt: nat)

  /** The second half of pm_worker: thresholds applied to the new activity value. */
  function Assess(l: Limits, g: Gauge, y: int): Gauge
    requires l.Valid() && g.state <= SLEEP
  {
    if g.state > NORMAL && y > l.exit[g.state - 1] then Gauge(g.state, NORMAL, 0)
    else if g.state >= SLEEP then g
    else if y > l.enter[g.state] then Gauge(g.state, g.state, 0)
    else if g.recommended >= g.state + 1 then g
    else if g.thrcnt + 1 >= l.count[g.state] then Gauge(g.state, g.state + 1, 0)
    else Gauge(g.state, g.recommended, g.thrcnt + 1)
  }

  /** An update that counts towards the next lower power state. */
  predicate Calm(l: Limits, state: nat, y: int)
    requires l.Valid() && state < SLEEP
  {
    y <= l.enter[state] && !(state > NORMAL && y > l.exit[state - 1])
  }

  function AssessAll(l: Limits, g: Gauge, ys: seq<int>): (r: Gauge)
    requires l.Valid() && g.state <= SLEEP
    ensures r.state == g.state
  {
    if ys == [] then g else Assess(l, AssessAll(l, g, ys[..|ys| - 1]), ys[|ys| - 1])
  }

  /** How many of the latest updates in a row were calm. */
  function CalmRun(l: Limits, state: nat, ys: seq<int>): (n: nat)
    requires l.Valid() && state < SLEEP
    ensures n <= |ys|
    ensures forall i | |ys| - n <= i < |ys| :: Calm(l, state, ys[i])
    ensures n < |ys| ==> !Calm(l, state, ys[|ys| - n - 1])
  {
    if ys == [] || !Calm(l, state, ys[|ys| - 1]) then 0 else 1 + CalmRun(l, state, ys[..|ys| - 1])
  }

  /** A calm row in terms of the thresholds: none of its updates is above the one for going deeper or
      above the one for waking up, and the update before it is. */
  lemma CalmRowMeans(l: Limits, state: nat, ys: seq<int>, i: nat)
    requires l.Valid() && state < SLEEP && i < |ys|
    ensures var n := CalmRun(l, state, ys);
            var busy := ys[i] > l.enter[state] || (state > 0 && ys[i] > l.exit[state - 1]);
            (i >= |ys| - n ==> !busy) && (i == |ys| - n - 1 ==> busy)
  {
  }

  function Needed(l: Limits, state: nat): nat
    requires l.Valid() && state < SLEEP
  {
    if l.count[state] == 0 then 1 else l.count[state]
  }

  /** The length of the calm row at the end, and what `g` brought along if no busy update has
      cleared it. */
  function Counted(l: Limits, g: Gauge, ys: seq<int>): nat
    requires l.Valid() && g.state < SLEEP
  {
    var n := CalmRun(l, g.state, ys);
    if n == |ys| then n + g.thrcnt else n
  }

  /** The next lower state was recommended before and no busy update has withdrawn it. */
  predicate Standing(l: Limits, g: Gauge, ys: seq<int>)
    requires l.Valid() && g.state < SLEEP
  {
    CalmRun(l, g.state, ys) == |ys| && g.recommended == g.state + 1
  }

  /** A calm update has brought the count to what the state demands. */
  predicate Earned(l: Limits, g: Gauge, ys: seq<int>)
    requires l.Valid() && g.state < SLEEP
  {
    CalmRun(l, g.state, ys) > 0 && Counted(l, g, ys) >= Needed(l, g.state)
  }

  /** Over any series of updates, whatever count it starts from, the next lower state is recommended
      exactly when it was before and still stands, or when the calm updates in a row, with the
      count brought along, reach the number demanded; until then the count is that number. */
  lemma {:induction false} RecommendedIff(l: Limits, g: Gauge, ys: seq<int>)
    requires l.Valid() && g.state < SLEEP && g.recommended <= g.state + 1
    ensures var r := AssessAll(l, g, ys);
            r.recommended <= g.state + 1
            && (r.recommended == g.state + 1 <==> Standing(l, g, ys) || Earned(l, g, ys))
            && r.thrcnt == if Standing(l, g, ys) then g.thrcnt else if Earned(l, g, ys) then 0 else Counted(l, g, ys)
    decreases |ys|
  {
    if ys != [] {
      RecommendedIff(l, g, ys[..|ys| - 1]);
    }
  }

  /** Before that, calm updates leave the recommendation as it was, and a busy one sets it: to the
      normal state if it exceeds the exit threshold, else to the present state. */
  lemma {:induction false} OtherwiseRecommended(l: Limits, g: Gauge, ys: seq<int>)
    requires l.Valid() && g.state < SLEEP && g.recommended <= g.state + 1 && !Earned(l, g, ys)
    ensures var n := CalmRun(l, g.state, ys);
            AssessAll(l, g, ys).recommended ==
            if n == |ys| then g.recommended
            else if g.state > NORMAL && ys[|ys| - n - 1] > l.exit[g.state - 1] then NORMAL
            else g.state
    decreases |ys|
  {
    if ys != [] {
      var front, y := ys[..|ys| - 1], ys[|ys| - 1];
      if Calm(l, g.state, y) {
        OtherwiseRecommended(l, g, front);
        RecommendedIff(l, g, front);
      }
    }
  }

  function Repeat(y: int, n: nat): seq<int> { seq(n, _ => y) }

  lemma CalmRunMore(l: Limits, state: nat, ys: seq<int>)
    requires l.Valid() && state < SLEEP && ys != [] && Calm(l, state, ys[|ys| - 1])
    ensures CalmRun(l, state, ys) == 1 + CalmRun(l, state, ys[..|ys| - 1])
  {
  }

  lemma CalmRunNone(l: Limits, state: nat)
    requires l.Valid() && state < SLEEP
    ensures CalmRun(l, state, []) == 0
  {
  }

  lemma {:induction false} RepeatIsCalm(l: Limits, state: nat, y: int, n: nat)
    requires l.Valid() && state < SLEEP && Calm(l, state, y)
    ensures CalmRun(l, state, Repeat(y, n)) == n
  {
    hide CalmRun, Calm;
    if n == 0 {
      CalmRunNone(l, state);
      assert Repeat(y, n) == [];
    } else {
      assert Repeat(y, n)[..n - 1] == Repeat(y, n - 1);
      CalmRunMore(l, state, Repeat(y, n));
      RepeatIsCalm(l, state, y, n - 1);
    }
  }

  /** A lower state takes its full count of calm updates exactly when it is entered with the count
      cleared, or when one update is enough anyway. */
  lemma FullCountNeededIff(l: Limits, g: Gauge)
    requires l.Valid() && g.state < SLEEP && g.recommended <= g.state
    ensures (forall ys | AssessAll(l, g, ys).recommended == g.state + 1 ::
               CalmRun(l, g.state, ys) >= Needed(l, g.state))
            <==> g.thrcnt == 0 || Needed(l, g.state) == 1
  {
    hide AssessAll, CalmRun;
    var need := Needed(l, g.state);
    if g.thrcnt == 0 || need == 1 {
      forall ys | AssessAll(l, g, ys).recommended == g.state + 1 ensures CalmRun(l, g.state, ys) >= need {
        RecommendedIff(l, g, ys);
      }
    } else {
      var y := l.enter[g.state];
      if g.state > NORMAL && l.exit[g.state - 1] < y { y := l.exit[g.state - 1]; }
      var n := if g.thrcnt >= need then 1 else need - g.thrcnt;
      RepeatIsCalm(l, g.state, y, n);
      RecommendedIff(l, g, Repeat(y, n));
    }
  }

  /** Asleep, only activity above the exit threshold changes the recommendation. */
  lemma {:induction false} AsleepOnlyWakes(l: Limits, g: Gauge, ys: seq<int>)
    requires l.Valid() && g.state == SLEEP
    ensures AssessAll(l, g, ys).recommended ==
            if exists i :: 0 <= i < |ys| && ys[i] > l.exit[2] then NORMAL else g.recommended
    decreases |ys|
  {
    if ys != [] {
      var front := ys[..|ys| - 1];
      AsleepOnlyWakes(l, g, front);
      if i :| 0 <= i < |front| && front[i] > l.exit[2] {
        assert ys[i] > l.exit[2];
      }
    }
  }

  /** One step of a run in which only recommended states are requested, with the check and the
      change in one: an update, or a change that the drivers accept or refuse. */
  datatype Event = Update(y: int) | Request(accepted: bool)

  function React(l: Limits, g: Gauge, e: Event): Gauge
    requires l.Valid() && g.state <= SLEEP
  {
    match e
    case Update(y) => Assess(l, g, y)
    case Request(accepted) => if accepted then g.(state := g.recommended) else g
  }

  /** The recommendation is to wake up, to stay, or to go one level deeper; the count cannot
      overflow its 16 bits. */
  predicate Sane(g: Gauge) {
    && g.state <= SLEEP && g.recommended <= SLEEP && g.recommended in {NORMAL, g.state, g.state + 1}
    && g.thrcnt + 1 < 65536
  }

  lemma ReactKeepsSane(l: Limits, g: Gauge, e: Event)
    requires l.Valid() && Sane(g)
    ensures Sane(React(l, g, e)) && React(l, g, e).state <= g.state + 1
  {
  }

  ghost function Run(l: Limits, g: Gauge, events: seq<Event>): (r: Gauge)
    requires l.Valid() && Sane(g)
    ensures Sane(r)
  {
    if events == [] then g
    else
      var before := Run(l, g, events[..|events| - 1]);
      ReactKeepsSane(l, before, events[|events| - 1]);
      React(l, before, events[|events| - 1])
  }

  lemma {:induction false} RunStep(l: Limits, g: Gauge, events: seq<Event>, e: Event)
    requires l.Valid() && Sane(g)
    ensures Run(l, g, events + [e]) == React(l, Run(l, g, events), e)
  {
    assert (events + [e])[..|events|] == events;
  }

  /** How many of the latest updates in a row were calm for the state they found, changes of state
      in between not counted. */
  ghost function CalmTail(l: Limits, g: Gauge, events: seq<Event>): nat
    requires l.Valid() && Sane(g)
  {
    if events == [] then 0
    else
      var front, e := events[..|events| - 1], events[|events| - 1];
      var state := Run(l, g, front).state;
      match e
      case Request(_) => CalmTail(l, g, front)
      case Update(y) => if state < SLEEP && Calm(l, state, y) then 1 + CalmTail(l, g, front) else 0
  }

  /** The count never exceeds the calm updates behind it, and is spent once a lower state has
      been recommended. */
  lemma {:induction false} CountIsEarned(l: Limits, events: seq<Event>)
    requires l.Valid()
    ensures var r := Run(l, Gauge(0, 0, 0), events);
            r.thrcnt <= CalmTail(l, Gauge(0, 0, 0), events)
            && (r.recommended == r.state + 1 || r.state == SLEEP ==> r.thrcnt == 0)
    decreases |events|
  {
    if events != [] { CountIsEarned(l, events[..|events| - 1]); }
  }

  /** Over every run, a lower power state is newly recommended only by an update that completes
      a row of calm updates as long as that state's count. */
  lemma {:induction false} DeepeningIsEarned(l: Limits, events: seq<Event>, y: int)
    requires l.Valid()
    ensures var g, g' := Run(l, Gauge(0, 0, 0), events), Run(l, Gauge(0, 0, 0), events + [Update(y)]);
            g.recommended <= g.state && g'.recommended > g.state ==>
              g.state < SLEEP && CalmTail(l, Gauge(0, 0, 0), events + [Update(y)]) >= Needed(l, g.state)
  {
    CountIsEarned(l, events);
    RunStep(l, Gauge(0, 0, 0), events, Update(y));
    assert (events + [Update(y)])[..|events|] == events;
  }

  /** Over every run a step deepens the state by at most one level, and only to the state
      recommended at that moment. */
  lemma {:induction false} DeepensByOne(l: Limits, events: seq<Event>, e: Event)
    requires l.Valid()
    ensures var g, g' := Run(l, Gauge(0, 0, 0), events), Run(l, Gauge(0, 0, 0), events + [e]);
            g'.state <= g.state + 1 && (g'.state != g.state ==> g'.state == g.recommended && e == Request(true))
  {
    RunStep(l, Gauge(0, 0, 0), events, e);
    ReactKeepsSane(l, Run(l, Gauge(0, 0, 0), events), e);
  }

  ghost predicate Reachable(l: Limits, g: Gauge)
    requires l.Valid()
  {
    exists events: seq<Event> :: Run(l, Gauge(0, 0, 0), events) == g
  }

  lemma ReachNext(l: Limits, g: Gauge, e: Event)
    requires l.Valid() && Reachable(l, g) && g.state <= SLEEP
    ensures Reachable(l, React(l, g, e))
  {
    var events: seq<Event> :| Run(l, Gauge(0, 0, 0), events) == g;
    RunStep(l, Gauge(0, 0, 0), events, e);
  }

  /** The row may begin before the state it counts in: calm updates between the recommendation to
      wake up and the change are counted on. Here the change to the normal state is followed
      by one single update that recommends IDLE, although its count is three. */
  lemma CountCarriesOver()
    ensures var l := Limits([1, 1, 1], [2, 2, 2], [3, 3, 3]);
            var awake := React(l, Gauge(1, 0, 2), Request(true));
            Reachable(l, Gauge(1, 0, 2)) && awake.state == NORMAL && React(l, awake, Update(0)).recommended == 1
  {
    hide Reachable;
    var l := Limits([1, 1, 1], [2, 2, 2], [3, 3, 3]);
    ReachStart(l);
    ReachNext(l, Gauge(0, 0, 0), Update(0));
    ReachNext(l, Gauge(0, 0, 1), Update(0));
    ReachNext(l, Gauge(0, 0, 2), Update(0));
    ReachNext(l, Gauge(0, 1, 0), Request(true));
    ReachNext(l, Gauge(1, 1, 0), Update(5));
    ReachNext(l, Gauge(1, 0, 0), Update(0));
    ReachNext(l, Gauge(1, 0, 1), Update(0));
  }

  lemma ReachStart(l: Limits)
    requires l.Valid()
    ensures Reachable(l, Gauge(0, 0, 0))
  {
    assert Run(l, Gauge(0, 0, 0), []) == Gauge(0, 0, 0);
  }
}
