/** Readers and the receive interrupt as one state machine. Every step runs with interrupts
    masked; `rx_sem` follows the sem_wait and sem_post of POSIX.1-2008. A reader is known by
    the size of its buffer. */
module CanReaders {
  import opened Platform
  import opened CanCodec
  import opened CanRx

  /** `blocked` sleep in sem_wait, `woken` have been posted but have not run yet. `out` are all
      bytes returned so far, `accepted` all messages taken into the ring. */
  datatype Rx = Rx(size: nat, queue: seq<Msg>, sem: nat, blocked: multiset<nat>, woken: multiset<nat>,
                   out: seq<Byte>, accepted: seq<Msg>)

  function Start(size: nat): Rx { Rx(size, [], 0, multiset{}, multiset{}, [], []) }

  /** An interrupt with a message (and the sleeper a post would wake), a new can_read, a woken
      reader going on, or a signal hitting a sleeper. */
  datatype Event =
    | Receive(msg: Msg, wake: nat)
    | Enter(buflen: nat, nonblock: bool)
    | Resume(buflen: nat)
    | Signal(buflen: nat)

  predicate Possible(s: Rx, e: Event) {
    match e
    case Receive(_, wake) => s.blocked == multiset{} || wake in s.blocked
    case Enter(_, _) => true
    case Resume(b) => b in s.woken
    case Signal(b) => b in s.blocked
  }

  function Post(s: Rx, wake: nat): Rx {
    if s.blocked == multiset{} then s.(sem := s.sem + 1)
    else s.(blocked := s.blocked - multiset{wake}, woken := s.woken + multiset{wake})
  }

  /** can_read from the test of the empty ring on; the result is absent while the reader sleeps. */
  function ReadOn(s: Rx, b: nat, nonblock: bool): (Rx, int)
    decreases s.sem
  {
    if s.queue != [] then
      var k := Taken(s.queue, b);
      var bytes := EncodeAll(s.queue[..k]);
      (s.(queue := s.queue[k..], out := s.out + bytes), |bytes|)
    else if nonblock then (s, -EAGAIN)
    else if s.sem > 0 then ReadOn(s.(sem := s.sem - 1), b, nonblock)
    else (s.(blocked := s.blocked + multiset{b}), 0)
  }

  /** One step with the value its call returns, if it returns. */
  function Step(s: Rx, e: Event): (Rx, int)
    requires Possible(s, e)
  {
    match e
    case Receive(msg, wake) =>
      if |s.queue| + 1 >= s.size then (s, -ENOMEM)
      else (Post(s.(queue := s.queue + [msg], accepted := s.accepted + [msg]), wake), 0)
    case Enter(b, nonblock) => if b < HDRLEN then (s, 0) else ReadOn(s, b, nonblock)
    case Resume(b) => ReadOn(s.(woken := s.woken - multiset{b}), b, false)
    case Signal(b) => (s.(blocked := s.blocked - multiset{b}), -EINTR)
  }

  // ---------------------------------------------------------------- conservation

  /** The accepted messages that have left the ring. */
  function Delivered(s: Rx): seq<Msg>
    requires |s.queue| <= |s.accepted|
  {
    s.accepted[..|s.accepted| - |s.queue|]
  }

  /** What has been returned are whole messages, the oldest accepted ones; the queue holds the rest
      of them and stays below the ring size; who sleeps sleeps on a zero count. */
  ghost predicate Conserved(s: Rx) {
    && |s.queue| <= |s.accepted| && s.accepted == Delivered(s) + s.queue
    && s.out == EncodeAll(Delivered(s))
    && (s.queue == [] || |s.queue| < s.size)
    && (s.blocked != multiset{} ==> s.sem == 0)
  }

  /** Moving the first `k` queued messages to the reader. */
  lemma {:induction false} TakingConserves(s: Rx, k: nat)
    requires Conserved(s) && k <= |s.queue|
    ensures Conserved(s.(queue := s.queue[k..], out := s.out + EncodeAll(s.queue[..k])))
  {
    hide EncodeAll;
    var t := s.(queue := s.queue[k..], out := s.out + EncodeAll(s.queue[..k]));
    assert Delivered(t) == Delivered(s) + s.queue[..k];
    EncodeAllConcat(Delivered(s), s.queue[..k]);
  }

  lemma {:induction false} ReadOnConserves(s: Rx, b: nat, nonblock: bool)
    requires Conserved(s)
    ensures Conserved(ReadOn(s, b, nonblock).0)
    decreases s.sem
  {
    hide EncodeAll, Taken;
    if s.queue != [] {
      TakingConserves(s, Taken(s.queue, b));
    } else if !nonblock && s.sem > 0 {
      ReadOnConserves(s.(sem := s.sem - 1), b, nonblock);
    }
  }

  lemma ReceiveConserves(s: Rx, msg: Msg, wake: nat)
    requires Conserved(s) && |s.queue| + 1 < s.size && (s.blocked == multiset{} || wake in s.blocked)
    ensures Conserved(Post(s.(queue := s.queue + [msg], accepted := s.accepted + [msg]), wake))
  {
    hide EncodeAll;
    var t := s.(queue := s.queue + [msg], accepted := s.accepted + [msg]);
    assert Delivered(t) == Delivered(s);
  }

  lemma StepConserves(s: Rx, e: Event)
    requires Conserved(s) && Possible(s, e)
    ensures Conserved(Step(s, e).0)
  {
    hide EncodeAll, Taken, ReadOn, Post;
    match e
    case Receive(msg, wake) =>
      if |s.queue| + 1 < s.size { ReceiveConserves(s, msg, wake); }
    case Enter(b, nonblock) => ReadOnConserves(s, b, nonblock);
    case Resume(b) => ReadOnConserves(s.(woken := s.woken - multiset{b}), b, false);
    case Signal(b) =>
  }

  /** No read returns more than its buffer holds. */
  lemma {:induction false} ReadOnBounded(s: Rx, b: nat, nonblock: bool)
    ensures ReadOn(s, b, nonblock).1 <= b
    decreases s.sem
  {
    if s.queue != [] {
      TakenIsMaximal(s.queue, b);
    } else if !nonblock && s.sem > 0 {
      ReadOnBounded(s.(sem := s.sem - 1), b, nonblock);
    }
  }

  /** What can_read returns: with a message queued the number of bytes it delivered, which are appended to
      what was returned before; otherwise -EAGAIN at once, or nothing yet while the reader sleeps. */
  lemma {:induction false} ReadOnReturns(s: Rx, b: nat, nonblock: bool)
    ensures var (t, r) := ReadOn(s, b, nonblock);
            && s.out <= t.out && t.accepted == s.accepted
            && (s.queue != [] ==> r == |t.out| - |s.out|)
            && (s.queue == [] && nonblock ==> r == -EAGAIN && t == s)
            && (s.queue == [] && !nonblock ==>
                  r == 0 && t == s.(sem := 0, blocked := s.blocked + multiset{b}))
    decreases s.sem
  {
    hide EncodeAll, Taken;
    if s.queue == [] && !nonblock && s.sem > 0 { ReadOnReturns(s.(sem := s.sem - 1), b, nonblock); }
  }

  function Positive(r: int): nat { if r > 0 then r else 0 }

  /** What any call returns. A read of a buffer without room for a header returns 0 and does nothing; the
      handler returns 0 for a message it took; a signal ends the sleep with -EINTR. */
  lemma StepReturns(s: Rx, e: Event)
    requires Possible(s, e)
    ensures var (t, r) := Step(s, e);
            && s.out <= t.out && |t.out| - |s.out| == (if e.Enter? || e.Resume? then Positive(r) else 0)
            && (e.Enter? && e.buflen < HDRLEN ==> r == 0 && t == s)
            && (e.Enter? && e.buflen >= HDRLEN && s.queue == [] && e.nonblock ==> r == -EAGAIN && t == s)
            && (e.Receive? ==> (r == 0 <==> t.accepted == s.accepted + [e.msg]) && (r != 0 ==> r == -ENOMEM && t == s))
            && (e.Signal? ==> r == -EINTR && t == s.(blocked := s.blocked - multiset{e.buflen}))
  {
    hide ReadOn;
    if e.Enter? { ReadOnReturns(s, e.buflen, e.nonblock); }
    if e.Resume? { ReadOnReturns(s.(woken := s.woken - multiset{e.buflen}), e.buflen, false); }
    assert e.Receive? ==> |s.accepted + [e.msg]| > |s.accepted|;
  }

  /** In every state a run can reach, a message is refused exactly when the ring holds one less
      than its size, and then nothing changes. */
  lemma RefusedIff(s: Rx, msg: Msg, wake: nat)
    requires Conserved(s) && s.size > 0 && Possible(s, Receive(msg, wake))
    ensures Step(s, Receive(msg, wake)).1 == -ENOMEM <==> |s.queue| == s.size - 1
    ensures |s.queue| == s.size - 1 ==> Step(s, Receive(msg, wake)).0 == s
  {
    hide EncodeAll;
  }

  // ---------------------------------------------------------------- wake-ups

  /** Every queued message is matched by an available count or a reader on its way. */
  predicate Covered(s: Rx) { s.sem + |s.woken| >= |s.queue| }

  /** A reader sleeps although messages wait and nobody is on the way to them. */
  predicate LostWakeup(s: Rx) { s.blocked != multiset{} && s.woken == multiset{} && s.queue != [] }

  lemma CoveredMeansAwake(s: Rx)
    requires Conserved(s) && Covered(s)
    ensures !LostWakeup(s)
  {
  }

  lemma {:induction false} ReadOnCovers(s: Rx, b: nat, nonblock: bool)
    requires s.queue != [] ==> s.sem + |s.woken| + Taken(s.queue, b) >= |s.queue|
    ensures Covered(ReadOn(s, b, nonblock).0)
    decreases s.sem
  {
    if s.queue == [] && !nonblock && s.sem > 0 {
      ReadOnCovers(s.(sem := s.sem - 1), b, nonblock);
    }
  }

  /** The resumed reader's buffer does not even take the first message: the wake-up it
      consumed moves nothing. */
  predicate WastesWakeup(s: Rx, e: Event) {
    e.Resume? && s.queue != [] && MsgLen(s.queue[0]) > e.buflen
  }

  lemma StepCovers(s: Rx, e: Event)
    requires Covered(s) && Possible(s, e) && !WastesWakeup(s, e)
    ensures Covered(Step(s, e).0)
  {
    match e
    case Receive(msg, wake) =>
    case Enter(b, nonblock) => ReadOnCovers(s, b, nonblock);
    case Resume(b) => ReadOnCovers(s.(woken := s.woken - multiset{b}), b, false);
    case Signal(b) =>
  }

  /** A wasted wake-up breaks the cover exactly when there was no spare count. */
  lemma WasteIsLossIff(s: Rx, e: Event)
    requires Covered(s) && Possible(s, e) && WastesWakeup(s, e)
    ensures Covered(Step(s, e).0) <==> s.sem + |s.woken| > |s.queue|
  {
    hide Step;
    WastedResume(s, e.buflen);
    assert |s.woken - multiset{e.buflen}| == |s.woken| - 1;
  }

  // ---------------------------------------------------------------- runs

  ghost predicate Runs(s: Rx, events: seq<Event>, t: Rx)
    decreases |events|
  {
    if events == [] then s == t else Possible(s, events[0]) && Runs(Step(s, events[0]).0, events[1..], t)
  }

  predicate BuffersAtLeast(events: seq<Event>, b: nat) {
    forall i | 0 <= i < |events| && (events[i].Enter? || events[i].Resume?) :: events[i].buflen >= b
  }

  lemma {:induction false} RunKeeps(s: Rx, events: seq<Event>, t: Rx)
    requires Conserved(s) && Runs(s, events, t)
    ensures Conserved(t) && t.size == s.size
    ensures Covered(s) && BuffersAtLeast(events, MAXMSGLEN) ==> Covered(t)
    decreases |events|
  {
    if events != [] {
      hide Step, Conserved;
      StepConserves(s, events[0]);
      StepKeepsSize(s, events[0]);
      if Covered(s) && BuffersAtLeast(events, MAXMSGLEN) { StepCovers(s, events[0]); }
      RunKeeps(Step(s, events[0]).0, events[1..], t);
    }
  }

  lemma StepKeepsSize(s: Rx, e: Event)
    requires Possible(s, e)
    ensures Step(s, e).0.size == s.size
  {
    if e.Enter? { ReadOnKeepsSize(s, e.buflen, e.nonblock); }
    if e.Resume? { ReadOnKeepsSize(s.(woken := s.woken - multiset{e.buflen}), e.buflen, false); }
  }

  lemma {:induction false} ReadOnKeepsSize(s: Rx, b: nat, nonblock: bool)
    ensures ReadOn(s, b, nonblock).0.size == s.size
    decreases s.sem
  {
    if s.queue == [] && !nonblock && s.sem > 0 { ReadOnKeepsSize(s.(sem := s.sem - 1), b, nonblock); }
  }

  lemma StartConserves(size: nat)
    ensures Conserved(Start(size)) && Covered(Start(size))
  {
  }

  /** Conservation over every interleaving: the bytes returned so far are the encodings of whole
      messages, and those messages followed by the queue are the accepted ones in arrival order. */
  lemma RunConserves(size: nat, events: seq<Event>, t: Rx)
    requires Runs(Start(size), events, t)
    ensures |t.queue| <= |t.accepted| && t.accepted == Delivered(t) + t.queue
    ensures t.out == EncodeAll(Delivered(t)) && DecodeAll(t.out) == Delivered(t)
  {
    StartConserves(size);
    RunKeeps(Start(size), events, t);
    DecodeAllEncoded(Delivered(t));
  }

  /** The bytes that the reads of a run return, by their return values. */
  ghost function Counted(s: Rx, events: seq<Event>): nat
    decreases |events|
  {
    if events == [] || !Possible(s, events[0]) then 0
    else
      var (t, r) := Step(s, events[0]);
      (if events[0].Enter? || events[0].Resume? then Positive(r) else 0) + Counted(t, events[1..])
  }

  /** Over every run the return values add up to the bytes delivered. */
  lemma {:induction false} RunReturns(s: Rx, events: seq<Event>, t: Rx)
    requires Runs(s, events, t)
    ensures s.out <= t.out && Counted(s, events) == |t.out| - |s.out|
    decreases |events|
  {
    hide Step;
    if events != [] {
      StepReturns(s, events[0]);
      RunReturns(Step(s, events[0]).0, events[1..], t);
    }
  }

  /** No lost wake-up: when every buffer fits the longest message, no run reaches a state where
      a reader sleeps, messages wait, and nobody is on the way to them. */
  lemma RunLosesNoWakeup(size: nat, events: seq<Event>, t: Rx)
    requires Runs(Start(size), events, t) && BuffersAtLeast(events, MAXMSGLEN)
    ensures !LostWakeup(t)
  {
    StartConserves(size);
    RunKeeps(Start(size), events, t);
    CoveredMeansAwake(t);
  }

  /** A ring that cannot hold a message loses no wake-up either. */
  lemma TinyRingLosesNoWakeup(size: nat, events: seq<Event>, t: Rx)
    requires Runs(Start(size), events, t) && size < 2
    ensures !LostWakeup(t)
  {
    StartConserves(size);
    RunKeeps(Start(size), events, t);
  }

  /** Any smaller buffer can lose one: a reader with room for `b` bytes consumes the wake-up for
      a message of full length while a second reader sleeps on. */
  lemma SmallBufferLosesWakeup(size: nat, b: nat)
    requires size >= 2 && HDRLEN <= b < MAXMSGLEN
    ensures exists events, t :: Runs(Start(size), events, t) && BuffersAtLeast(events, b) && LostWakeup(t)
  {
    hide Step;
    var m: Msg := Msg(1, false, [1, 2, 3, 4, 5, 6, 7, 8]);
    var s0 := Start(size);
    EnterSleeps(s0, b);
    var s1 := s0.(blocked := s0.blocked + multiset{b});
    EnterSleeps(s1, MAXMSGLEN);
    var s2 := s1.(blocked := s1.blocked + multiset{MAXMSGLEN});
    ReceiveWakes(s2, m, b);
    var s3 := Step(s2, Receive(m, b)).0;
    WastedResume(s3, b);
    var s4 := Step(s3, Resume(b)).0;
    SleeperLeft(b);
    assert s4.woken == multiset{} && s4.queue == [m];
    RunOfFour(s0, [Enter(b, false), Enter(MAXMSGLEN, false), Receive(m, b), Resume(b)], s1, s2, s3, s4);
  }

  lemma SleeperLeft(b: nat)
    ensures MAXMSGLEN in multiset{} + multiset{b} + multiset{MAXMSGLEN} - multiset{b}
    ensures multiset{} + multiset{b} - multiset{b} == multiset{}
  {
  }

  /** The threshold: a ring and a least buffer size rule out lost wake-ups over all runs exactly when
      the buffers fit the longest message, or the ring holds no message at all. */
  lemma WakeupThreshold(size: nat, b: nat)
    ensures (forall events, t | Runs(Start(size), events, t) && BuffersAtLeast(events, b) :: !LostWakeup(t))
            <==> b >= 10 || size < 2
  {
    hide Runs, LostWakeup;
    if b >= MAXMSGLEN || size < 2 {
      forall events, t | Runs(Start(size), events, t) && BuffersAtLeast(events, b) ensures !LostWakeup(t) {
        if size < 2 {
          TinyRingLosesNoWakeup(size, events, t);
        } else {
          RunLosesNoWakeup(size, events, t);
        }
      }
    } else {
      SmallBufferLosesWakeup(size, if b < HDRLEN then HDRLEN else b);
    }
  }

  lemma EnterSleeps(s: Rx, b: nat)
    requires s.queue == [] && s.sem == 0 && b >= HDRLEN
    ensures Step(s, Enter(b, false)).0 == s.(blocked := s.blocked + multiset{b})
  {
  }

  lemma ReceiveWakes(s: Rx, m: Msg, b: nat)
    requires b in s.blocked && |s.queue| + 1 < s.size
    ensures Step(s, Receive(m, b)).0 ==
            s.(queue := s.queue + [m], accepted := s.accepted + [m],
               blocked := s.blocked - multiset{b}, woken := s.woken + multiset{b})
  {
  }

  /** A reader that cannot take the first message leaves the ring as it is. */
  lemma WastedResume(s: Rx, b: nat)
    requires b in s.woken && s.queue != [] && MsgLen(s.queue[0]) > b
    ensures Step(s, Resume(b)) == (s.(woken := s.woken - multiset{b}), 0)
  {
    assert Taken(s.queue, b) == 0 && s.queue[0..] == s.queue && s.queue[..0] == [];
    assert EncodeAll([]) == [] && s.out + [] == s.out;
  }

  lemma RunOfFour(s0: Rx, es: seq<Event>, s1: Rx, s2: Rx, s3: Rx, s4: Rx)
    requires |es| == 4
    requires Possible(s0, es[0]) && s1 == Step(s0, es[0]).0
    requires Possible(s1, es[1]) && s2 == Step(s1, es[1]).0
    requires Possible(s2, es[2]) && s3 == Step(s2, es[2]).0
    requires Possible(s3, es[3]) && s4 == Step(s3, es[3]).0
    ensures Runs(s0, es, s4)
  {
    hide Step;
    assert es[1..][1..] == es[2..] && es[2..][1..] == es[3..] && es[3..][1..] == [];
    assert Runs(s3, es[3..], s4);
    assert Runs(s2, es[2..], s4);
    assert Runs(s1, es[1..], s4);
  }

  // ---------------------------------------------------------------- how far the count can grow

  /** Counts and woken readers beyond the queued messages. */
  function Surplus(s: Rx): int { s.sem + |s.woken| - |s.queue| }

  /** A reader takes messages it did not wait for: any on entering, more than one on waking. */
  predicate Overtakes(s: Rx, e: Event) {
    match e
    case Enter(b, _) => b >= HDRLEN && Taken(s.queue, b) > 0
    case Resume(b) => Taken(s.queue, b) > 1
    case _ => false
  }

  lemma {:induction false} ReadOnSurplus(s: Rx, b: nat, nonblock: bool)
    ensures var t := ReadOn(s, b, nonblock).0;
            if s.queue != [] then Surplus(t) == Surplus(s) + Taken(s.queue, b) && t.sem == s.sem && t.woken == s.woken
            else Surplus(t) <= Surplus(s) && t.woken == s.woken
    decreases s.sem
  {
    if s.queue == [] && !nonblock && s.sem > 0 {
      ReadOnSurplus(s.(sem := s.sem - 1), b, nonblock);
    }
  }

  /** Exactly the overtaking reads raise the surplus. */
  lemma SurplusRisesIff(s: Rx, e: Event)
    requires Possible(s, e)
    ensures Surplus(Step(s, e).0) > Surplus(s) <==> Overtakes(s, e)
  {
    match e
    case Receive(msg, wake) => ReceiveSurplus(s, msg, wake);
    case Enter(b, nonblock) => ReadOnSurplus(s, b, nonblock);
    case Resume(b) =>
      assert |s.woken - multiset{b}| == |s.woken| - 1;
      ReadOnSurplus(s.(woken := s.woken - multiset{b}), b, false);
    case Signal(b) =>
  }

  lemma ReceiveSurplus(s: Rx, msg: Msg, wake: nat)
    requires Possible(s, Receive(msg, wake))
    ensures Surplus(Step(s, Receive(msg, wake)).0) == Surplus(s)
  {
  }

  ghost predicate NobodyOvertakes(s: Rx, events: seq<Event>)
    decreases |events|
  {
    events == [] ||
    (Possible(s, events[0]) ==> !Overtakes(s, events[0]) && NobodyOvertakes(Step(s, events[0]).0, events[1..]))
  }

  /** Without overtaking reads the semaphore never counts more than the messages queued, and so
      stays below the ring size. */
  lemma {:induction false} CountStaysBelow(s: Rx, events: seq<Event>, t: Rx)
    requires Conserved(s) && Surplus(s) <= 0 && Runs(s, events, t) && NobodyOvertakes(s, events)
    ensures t.sem <= |t.queue| && (t.queue == [] || |t.queue| < t.size)
    decreases |events|
  {
    hide Step, Conserved, Overtakes;
    if events != [] {
      StepConserves(s, events[0]);
      SurplusRisesIff(s, events[0]);
      CountStaysBelow(Step(s, events[0]).0, events[1..], t);
    } else {
      QueueBound(s);
    }
  }

  lemma QueueBound(s: Rx)
    requires Conserved(s)
    ensures s.queue == [] || |s.queue| < s.size
  {
    hide EncodeAll;
  }

  ghost predicate Reachable(size: nat, t: Rx) { exists events :: Runs(Start(size), events, t) }

  lemma AfterNothing(s: Rx)
    ensures After(s, []) == s
  {
  }

  lemma RunsNothing(s: Rx)
    ensures Runs(s, [], s)
  {
  }

  lemma {:induction false} RunsOneMore(s: Rx, events: seq<Event>, t: Rx, e: Event)
    requires Runs(s, events, t) && Possible(t, e)
    ensures Runs(s, events + [e], Step(t, e).0)
    decreases |events|
  {
    hide Step;
    if events == [] {
      assert (events + [e])[1..] == [];
    } else {
      assert (events + [e])[1..] == events[1..] + [e];
      RunsOneMore(Step(s, events[0]).0, events[1..], t, e);
    }
  }

  /** Where a list of events leads when those that cannot happen do not. */
  ghost function After(s: Rx, events: seq<Event>): Rx {
    if events == [] then s
    else
      var t, e := After(s, events[..|events| - 1]), events[|events| - 1];
      if Possible(t, e) then Step(t, e).0 else t
  }

  lemma AfterMore(s: Rx, events: seq<Event>, i: nat)
    requires i < |events|
    ensures var t := After(s, events[..i]);
            After(s, events[..i + 1]) == if Possible(t, events[i]) then Step(t, events[i]).0 else t
  {
    assert events[..i + 1][..i] == events[..i];
  }

  lemma ReachableNext(size: nat, t: Rx, e: Event)
    requires Reachable(size, t) && Possible(t, e)
    ensures Reachable(size, Step(t, e).0)
  {
    hide Step, Runs;
    var events :| Runs(Start(size), events, t);
    RunsOneMore(Start(size), events, t, e);
  }

  /** With overtaking reads no bound holds: a reader that always finds its message waiting leaves
      one more count behind each time, although the count was meant to stay within the ring. */
  lemma {:induction false} CountGrowsWithoutBound(size: nat, n: nat)
    requires size >= 2
    ensures exists t :: Reachable(size, t) && t.sem == n && t.queue == [] && t.blocked == multiset{}
  {
    hide Reachable, Step;
    if n == 0 {
      ReachableStart(size);
    } else {
      CountGrowsWithoutBound(size, n - 1);
      var s :| Reachable(size, s) && s.sem == n - 1 && s.queue == [] && s.blocked == multiset{};
      var m: Msg := Msg(1, false, []);
      ReachableSize(size, s);
      ReceiveCounts(s, m);
      ReachableNext(size, s, Receive(m, 0));
      var t := Step(s, Receive(m, 0)).0;
      ReachableNext(size, t, Enter(MAXMSGLEN, false));
      EnterTakes(t, m);
    }
  }

  /** So only a ring without room for a message bounds the count at all. */
  lemma CountBoundedIff(size: nat, bound: nat)
    ensures (forall t | Reachable(size, t) :: t.sem <= bound) <==> size < 2
  {
    hide Reachable;
    if size < 2 {
      forall t | Reachable(size, t) ensures t.sem <= bound { TinyRingNeverCounts(size, t); }
    } else {
      CountGrowsWithoutBound(size, bound + 1);
    }
  }

  lemma TinyRingNeverCounts(size: nat, t: Rx)
    requires Reachable(size, t) && size < 2
    ensures t.sem == 0
  {
    var events :| Runs(Start(size), events, t);
    NeverCounts(Start(size), events, t);
  }

  lemma {:induction false} NeverCounts(s: Rx, events: seq<Event>, t: Rx)
    requires Runs(s, events, t) && s.size < 2 && s.queue == [] && s.sem == 0
    ensures t.sem == 0
    decreases |events|
  {
    if events != [] { NeverCounts(Step(s, events[0]).0, events[1..], t); }
  }

  lemma ReachableStart(size: nat)
    ensures Reachable(size, Start(size))
  {
    assert Runs(Start(size), [], Start(size));
  }

  lemma ReachableSize(size: nat, t: Rx)
    requires Reachable(size, t)
    ensures t.size == size
  {
    var events :| Runs(Start(size), events, t);
    StartConserves(size);
    RunKeeps(Start(size), events, t);
  }

  lemma ReceiveCounts(s: Rx, m: Msg)
    requires s.blocked == multiset{} && |s.queue| + 1 < s.size
    ensures Step(s, Receive(m, 0)).0 == s.(queue := s.queue + [m], accepted := s.accepted + [m], sem := s.sem + 1)
  {
  }

  lemma EnterTakes(s: Rx, m: Msg)
    requires s.queue == [m]
    ensures var t := Step(s, Enter(MAXMSGLEN, false)).0; t.queue == [] && t.sem == s.sem && t.blocked == s.blocked
  {
    assert Taken([m], MAXMSGLEN) == 1;
  }
}
