/** A power management domain as a whole: activity reports and checks end time slices, each ended slice
    is one sample for the worker, and the worker's recommendations are entered or refused. */
module PmDomain {
  import opened PmUpdate
  import PmWorker

  /** What reaches the worker's fields: a sample, or a change that the drivers accept or refuse. */
  datatype Step = Sample(accum: nat) | Change(accepted: bool)

  function SamplesOf(steps: seq<Step>): seq<nat> {
    if steps == [] then []
    else
      var last := steps[|steps| - 1];
      SamplesOf(steps[..|steps| - 1]) + if last.Sample? then [last.accum] else []
  }

  function ChangesOf(steps: seq<Step>): seq<bool> {
    if steps == [] then []
    else
      var last := steps[|steps| - 1];
      ChangesOf(steps[..|steps| - 1]) + if last.Change? then [last.accepted] else []
  }

  /** The values remembered for the average, and the updates and requests so far. */
  datatype Stage = Stage(remembered: seq<nat>, events: seq<Event>)

  /** A sample fills the memory; once that is full, it is averaged with it and assessed. */
  function Taken(coefN: nat, coeffs: seq<nat>, s: Stage, step: Step): (r: Stage)
    requires coefN + Weight(coeffs) > 0 && |s.remembered| <= |coeffs|
    ensures |r.remembered| <= |coeffs|
  {
    match step
    case Change(accepted) => s.(events := s.events + [Request(accepted)])
    case Sample(accum) =>
      if |s.remembered| < |coeffs| then s.(remembered := s.remembered + [accum])
      else if coeffs == [] then s.(events := s.events + [Update(accum)])
      else
        var y := Average(coefN, coeffs, s.remembered, accum);
        Stage(s.remembered[1..] + [y], s.events + [Update(y)])
  }

  function TakenAll(coefN: nat, coeffs: seq<nat>, steps: seq<Step>): (r: Stage)
    requires coefN + Weight(coeffs) > 0
    ensures |r.remembered| <= |coeffs|
  {
    if steps == [] then Stage([], [])
    else Taken(coefN, coeffs, TakenAll(coefN, coeffs, steps[..|steps| - 1]), steps[|steps| - 1])
  }

  lemma OneMore(coefN: nat, coeffs: seq<nat>, steps: seq<Step>, step: Step)
    requires coefN + Weight(coeffs) > 0
    ensures TakenAll(coefN, coeffs, steps + [step]) == Taken(coefN, coeffs, TakenAll(coefN, coeffs, steps), step)
    ensures SamplesOf(steps + [step]) == SamplesOf(steps) + if step.Sample? then [step.accum] else []
    ensures ChangesOf(steps + [step]) == ChangesOf(steps) + if step.Change? then [step.accepted] else []
  {
    assert (steps + [step])[..|steps|] == steps;
  }

  /** What happens to a domain. */
  datatype Action = Report(priority: int, now: nat) | Check(now: nat) | Enter(accepted: bool)

  function ReportsIn(actions: seq<Action>): seq<int> {
    if actions == [] then []
    else
      var last := actions[|actions| - 1];
      ReportsIn(actions[..|actions| - 1]) + if last.Report? then [last.priority] else []
  }

  function ChangesIn(actions: seq<Action>): seq<bool> {
    if actions == [] then []
    else
      var last := actions[|actions| - 1];
      ChangesIn(actions[..|actions| - 1]) + if last.Enter? then [last.accepted] else []
  }

  /** The slices of a domain and when the present one began. */
  datatype Sliced = Sliced(slices: seq<seq<int>>, slice: seq<int>, stime: nat)

  /** A report joins the present slice; a positive one and any check end the slice if its time has passed. */
  function Ticked(s: Sliced, a: Action, ticks: nat, wrap: nat): Sliced
    requires wrap > 0
  {
    var all := if a.Report? then s.slice + [a.priority] else s.slice;
    if (a.Check? || (a.Report? && a.priority > 0)) && (a.now - s.stime) % wrap >= ticks
    then Sliced(s.slices + [all], [], a.now)
    else s.(slice := all)
  }

  function TickedAll(s: Sliced, actions: seq<Action>, ticks: nat, wrap: nat): Sliced
    requires wrap > 0
  {
    if actions == [] then s
    else Ticked(TickedAll(s, actions[..|actions| - 1], ticks, wrap), actions[|actions| - 1], ticks, wrap)
  }

  lemma TickedMore(s: Sliced, actions: seq<Action>, i: nat, ticks: nat, wrap: nat)
    requires wrap > 0 && i < |actions|
    ensures TickedAll(s, actions[..0], ticks, wrap) == s
    ensures TickedAll(s, actions[..i + 1], ticks, wrap) ==
            Ticked(TickedAll(s, actions[..i], ticks, wrap), actions[i], ticks, wrap)
  {
    assert actions[..i + 1][..i] == actions[..i];
  }

  lemma InMore(actions: seq<Action>, i: nat)
    requires i < |actions|
    ensures ReportsIn(actions[..i + 1]) ==
            ReportsIn(actions[..i]) + if actions[i].Report? then [actions[i].priority] else []
    ensures ChangesIn(actions[..i + 1]) ==
            ChangesIn(actions[..i]) + if actions[i].Enter? then [actions[i].accepted] else []
  {
    assert actions[..i + 1][..i] == actions[..i];
  }

  class Domain {
    const meter: Meter
    const worker: PmWorker.Domain
    ghost var steps: seq<Step>

    ghost function Slices(): Sliced
      reads meter
    {
      Sliced(meter.slices, meter.slice, meter.stime)
    }

    ghost function Stage(): Stage
      requires worker.Configured()
      reads this
    {
      TakenAll(worker.coefN, worker.coeffs, steps)
    }

    /** The samples are those of the ended slices, the remembered values and the recommendation are
        what the model's run makes of them. */
    ghost predicate Valid()
      reads this, meter, worker, worker.memory
    {
      && meter.Valid() && worker.Valid()
      && SamplesOf(steps) == meter.samples && worker.remembered == Stage().remembered
      && worker.Now() == Run(worker.limits, Gauge(0, 0, 0), Stage().events)
    }

    constructor (sliceTicks: nat, wrap: nat, coefN: nat, coeffs: seq<nat>, limits: Limits)
      requires wrap > 0 && limits.Valid() && 1 <= coefN + Weight(coeffs) <= 65538
      ensures Valid() && fresh(meter) && fresh(worker) && fresh(worker.memory) && steps == []
      ensures worker.limits == limits && worker.coefN == coefN && worker.coeffs == coeffs
      ensures meter.sliceTicks == sliceTicks && meter.wrap == wrap && meter.stime == 0
    {
      meter := new Meter(sliceTicks, wrap);
      worker := new PmWorker.Domain(coefN, coeffs, limits);
      steps := [];
    }

    /** The work queued by pm_update for a sample, if the last call ended a slice. */
    method Deliver(ghost before: seq<nat>, known: nat)
      requires meter.Valid() && worker.Valid() && SamplesOf(steps) == before && worker.remembered == Stage().remembered
      requires worker.Now() == Run(worker.limits, Gauge(0, 0, 0), Stage().events)
      requires known == |before| <= |meter.samples| <= |before| + 1 && before <= meter.samples
      modifies this, worker, worker.memory
      ensures Valid() && ChangesOf(steps) == old(ChangesOf(steps))
    {
      hide Sum, Dot, Weight, Average, Run, Assess, Taken, TakenAll, SamplesOf, ChangesOf;
      if |meter.samples| > known {
        var accum := meter.samples[known];
        OneMore(worker.coefN, worker.coeffs, steps, Sample(accum));
        SampleMeans(worker.coefN, worker.coeffs, worker.limits, Stage(), accum);
        assert meter.samples == before + [accum] && accum <= INT16_MAX;
        worker.Worker(accum);
        steps := steps + [Sample(accum)];
      }
    }

    /** pm_activity. */
    method Activity(priority: int, now: nat)
      requires Valid()
      modifies this, meter, worker, worker.memory
      ensures Valid() && meter.Reports() == old(meter.Reports()) + [priority]
      ensures meter.wrap > 0 && Slices() == Ticked(old(Slices()), Report(priority, now), meter.sliceTicks, meter.wrap)
      ensures ChangesOf(steps) == old(ChangesOf(steps))
    {
      hide Run, TakenAll, SamplesOf, ChangesOf, Sum, Joined;
      ghost var before := meter.samples;
      var known := |meter.samples|;
      meter.Activity(priority, now);
      Deliver(before, known);
    }

    /** pm_checkstate. */
    method CheckState(now: nat) returns (recommended: nat)
      requires Valid()
      modifies this, meter, worker, worker.memory
      ensures Valid() && recommended == worker.recommended
      ensures meter.wrap > 0 && Slices() == Ticked(old(Slices()), Check(now), meter.sliceTicks, meter.wrap)
      ensures meter.Reports() == old(meter.Reports()) && ChangesOf(steps) == old(ChangesOf(steps))
    {
      hide Run, TakenAll, SamplesOf, ChangesOf, Sum, Joined;
      ghost var before := meter.samples;
      var known := |meter.samples|;
      meter.EndSlice(now);
      Deliver(before, known);
      recommended := worker.recommended;
    }

    /** pm_changestate to the recommended state. */
    method ChangeState(accepted: bool)
      requires Valid()
      modifies this, worker
      ensures Valid() && ChangesOf(steps) == old(ChangesOf(steps)) + [accepted]
    {
      hide Sum, Dot, Weight, Run, TakenAll, SamplesOf, ChangesOf;
      OneMore(worker.coefN, worker.coeffs, steps, Change(accepted));
      RunStep(worker.limits, Gauge(0, 0, 0), Stage().events, Request(accepted));
      RunSane(worker.limits, Stage().events);
      worker.Enter(accepted);
      steps := steps + [Change(accepted)];
    }

    /** Any life of a domain: no report is lost, the samples are the saturated activity of the slices,
        and state and recommendation are those of the model's run over the averaged samples and the
        changes, in order. */
    method Live(actions: seq<Action>)
      requires Valid()
      modifies this, meter, worker, worker.memory
      ensures Valid()
      ensures meter.wrap > 0 && Slices() == TickedAll(old(Slices()), actions, meter.sliceTicks, meter.wrap)
      ensures meter.Reports() == old(meter.Reports()) + ReportsIn(actions)
      ensures ChangesOf(steps) == old(ChangesOf(steps)) + ChangesIn(actions)
    {
      hide Run, TakenAll, SamplesOf, ChangesOf, Sum, Joined;
      for i := 0 to |actions|
        invariant Valid()
        invariant meter.wrap > 0 && Slices() == TickedAll(old(Slices()), actions[..i], meter.sliceTicks, meter.wrap)
        invariant meter.Reports() == old(meter.Reports()) + ReportsIn(actions[..i])
        invariant ChangesOf(steps) == old(ChangesOf(steps)) + ChangesIn(actions[..i])
      {
        InMore(actions, i);
        TickedMore(old(Slices()), actions, i, meter.sliceTicks, meter.wrap);
        match actions[i]
        case Report(priority, now) => Activity(priority, now);
        case Check(now) =>
          var _ := CheckState(now);
        case Enter(accepted) => ChangeState(accepted);
      }
      assert actions[..|actions|] == actions;
    }
  }

  lemma RunSane(l: Limits, events: seq<Event>)
    requires l.Valid()
    ensures Sane(Run(l, Gauge(0, 0, 0), events))
  {
  }

  /** A sample in terms of the worker's step. */
  lemma SampleMeans(coefN: nat, coeffs: seq<nat>, l: Limits, s: Stage, accum: nat)
    requires l.Valid() && coefN + Weight(coeffs) > 0 && |s.remembered| <= |coeffs|
    ensures var r, g := Taken(coefN, coeffs, s, Sample(accum)), Run(l, Gauge(0, 0, 0), s.events);
            if |s.remembered| < |coeffs| then
              r.remembered == s.remembered + [accum] && Run(l, Gauge(0, 0, 0), r.events) == g
            else
              var y := if coeffs == [] then accum else Average(coefN, coeffs, s.remembered, accum);
              Run(l, Gauge(0, 0, 0), r.events) == Assess(l, g, y)
              && r.remembered == if coeffs == [] then [] else s.remembered[1..] + [y]
  {
    hide Run, Assess, Average, Weight;
    if |s.remembered| == |coeffs| {
      var y := if coeffs == [] then accum else Average(coefN, coeffs, s.remembered, accum);
      RunStep(l, Gauge(0, 0, 0), s.events, Update(y));
    }
  }
}
