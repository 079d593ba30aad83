/** The two-phase state change of os/pm/pm_changestate.c: every registered driver may veto a new
    state; then every driver is told the state the domain is really in. */
module PmChange {
  import opened PmMetrics

  /** Which callbacks a driver registered. */
  datatype Callback = Callback(prepare: bool, notify: bool)

  /** What the drivers answer, in registration order, when asked to prepare: 0 accepts. */
  type Answers = seq<int>

  /** The state a driver was told last. */
  datatype Told = Never | State(state: nat)

  ghost predicate AllAccept(registry: seq<Callback>, answers: Answers)
    requires |answers| == |registry|
  {
    forall i | 0 <= i < |registry| && registry[i].prepare :: answers[i] == 0
  }

  ghost predicate IsFirstRefusal(registry: seq<Callback>, answers: Answers, i: int)
    requires |answers| == |registry|
  {
    0 <= i < |registry| && registry[i].prepare && answers[i] != 0 &&
    forall k | 0 <= k < i && registry[k].prepare :: answers[k] == 0
  }

  class Domain {
    const history: History
    var state: nat
    var registry: seq<Callback>
    ghost var told: seq<Told>          // per driver, the last notification
    ghost var asked: seq<(nat, nat)>   // the prepare calls of the last pass: driver and state

    /** The history is never empty and ends with the domain's state; nobody with a notify
        callback has been told anything but that state last. */
    ghost predicate Valid()
      reads this, history
    {
      && history.Valid() && Last(history.entries).state == state
      && |told| == |registry|
      && forall i | 0 <= i < |registry| :: told[i] == Never || (registry[i].notify && told[i] == State(state))
    }

    ghost predicate Informed()
      requires Valid()
      reads this, history
    {
      forall i | 0 <= i < |registry| && registry[i].notify :: told[i] == State(state)
    }

    /** pm_initialize for one domain. */
    constructor (duration: nat, now: nat)
      requires duration < WRAP
      ensures Valid() && fresh(history) && state == 0 && registry == [] && history.entries == [Change(0, now)]
      ensures history.duration == duration
    {
      history := new History(duration, now);
      state, registry, told, asked := 0, [], [], [];
    }

    /** pm_register. */
    method Register(cb: Callback)
      requires Valid()
      modifies this
      ensures Valid() && registry == old(registry) + [cb]
      ensures state == old(state) && history.entries == old(history.entries)
    {
      registry := registry + [cb];
      told := told + [Never];
    }

    /** pm_prepall: drivers are asked in order, each once, until one refuses; its answer is the result. */
    method PrepAll(newstate: nat, answers: Answers) returns (ret: int)
      requires |answers| == |registry|
      modifies this`asked
      ensures ret == 0 <==> AllAccept(registry, answers)
      ensures ret == 0 ==> forall i | 0 <= i < |registry| && registry[i].prepare :: (i, newstate) in asked
      ensures ret != 0 ==> exists i :: IsFirstRefusal(registry, answers, i) && ret == answers[i]
      ensures forall a | a in asked :: a.1 == newstate && a.0 < |registry| && registry[a.0].prepare
      ensures forall j, k | 0 <= j < k < |asked| :: asked[j].0 < asked[k].0
      ensures forall j | 0 <= j < |asked| - 1 :: answers[asked[j].0] == 0
    {
      ret := 0;
      asked := [];
      var i := 0;
      while i < |registry| && ret == 0
        invariant i <= |registry|
        invariant ret == 0 ==> forall k | 0 <= k < i && registry[k].prepare :: answers[k] == 0 && (k, newstate) in asked
        invariant ret != 0 ==> i > 0 && IsFirstRefusal(registry, answers, i - 1) && answers[i - 1] == ret
        invariant forall a | a in asked :: a.1 == newstate && a.0 < i && registry[a.0].prepare
        invariant forall j, k | 0 <= j < k < |asked| :: asked[j].0 < asked[k].0
        invariant forall j | 0 <= j < |asked| - (if ret == 0 then 0 else 1) :: answers[asked[j].0] == 0
      {
        if registry[i].prepare {
          ret := answers[i];
          asked := asked + [(i, newstate)];
        }
        i := i + 1;
      }
    }

    /** pm_changeall. */
    method ChangeAll(newstate: nat)
      requires |told| == |registry|
      modifies this`told
      ensures |told| == |registry|
      ensures forall i | 0 <= i < |registry| :: told[i] == if registry[i].notify then State(newstate) else old(told[i])
    {
      var i := 0;
      while i < |registry|
        invariant i <= |registry| && |told| == |registry|
        invariant forall k | 0 <= k < |registry| ::
                    told[k] == if k < i && registry[k].notify then State(newstate) else old(told[k])
      {
        if registry[i].notify {
          told := told[i := State(newstate)];
        }
        i := i + 1;
      }
    }

    /** pm_changestate at clock `now`, which pruning reads again at `later`: `first` are the drivers'
        answers to the new state, `again` those to the old state after a refusal. The domain enters
        the new state exactly when every prepare callback accepted it in this call; either way every
        driver ends up told the state the domain is in, and only an accepted change is recorded. */
    method ChangeState(newstate: nat, first: Answers, again: Answers, now: nat, later: nat) returns (ret: int)
      requires Valid() && |first| == |registry| == |again| && Last(history.entries).at <= now && later < WRAP
      modifies this, history
      ensures Valid() && Informed() && registry == old(registry)
      ensures ret == 0 <==> AllAccept(registry, first)
      ensures ret != 0 ==> exists i :: IsFirstRefusal(registry, first, i) && ret == first[i]
      ensures state == if ret == 0 then newstate else old(state)
      ensures history.entries ==
              if ret == 0 then Pruned(old(history.entries), Minus(later, history.duration)) + [Change(newstate, now)]
              else old(history.entries)
      ensures ret == 0 ==> forall i | 0 <= i < |registry| && registry[i].prepare :: (i, newstate) in asked
      ensures forall a | a in asked :: a.1 == state
    {
      hide Sorted, Pruned, AllAccept, IsFirstRefusal;
      var target := newstate;
      ret := PrepAll(newstate, first);
      if ret != 0 {
        target := state;
        var _ := PrepAll(target, again);
      } else {
        PrunedEnds(history.entries, Minus(later, history.duration));
        history.Prune(later);
        history.Record(newstate, now);
      }
      ChangeAll(target);
      state := target;
    }
  }
}
