/** Whole runs of the block cache against the plain block array. */
module RwRuns {
  import opened RwModel
  import opened RwCoherence

  /** One step of a run: a public call, or the write-behind timer. */
  datatype Op = WriteOp(start: int, data: seq<Block>) | ReadOp(start: int, n: nat) | Timeout

  /** What the caller sees of a step: the return value and the blocks delivered. */
  datatype Seen = Seen(ret: int, data: seq<Block>)

  function Step(s: Rwb, op: Op): (Rwb, Seen) {
    match op
    case WriteOp(start, data) => var (t, ret) := Write(s, start, data); (t, Seen(ret, []))
    case ReadOp(start, n) => var r := Read(s, start, n); (r.s, Seen(r.ret, if r.ret < 0 then [] else r.data))
    case Timeout => (WrFlush(s), Seen(0, []))
  }

  function Run(s: Rwb, ops: seq<Op>): (r: (Rwb, seq<Seen>))
    ensures |r.1| == |ops|
    decreases |ops|
  {
    if ops == [] then (s, [])
    else
      var (t, seen) := Step(s, ops[0]);
      var (u, rest) := Run(t, ops[1..]);
      (u, [seen] + rest)
  }

  lemma RunNothing(s: Rwb)
    ensures Run(s, []) == (s, [])
  {
  }

  /** A run continued by one more step. */
  lemma {:induction false} RunSnoc(s: Rwb, ops: seq<Op>, op: Op)
    ensures var (t, seen) := Run(s, ops);
            var (u, last) := Step(t, op);
            Run(s, ops + [op]) == (u, seen + [last])
    decreases |ops|
  {
    hide Step;
    if ops == [] {
      assert [op][1..] == [] && ops + [op] == [op];
      RunNothing(s);
      RunNothing(Step(s, op).0);
      var (u, last) := Step(s, op);
      assert Run(s, [op]) == (u, [last] + []) && [last] + [] == [] + [last];
    } else {
      assert (ops + [op])[1..] == ops[1..] + [op];
      var (s1, first) := Step(s, ops[0]);
      RunSnoc(s1, ops[1..], op);
      var (t, rest) := Run(s1, ops[1..]);
      assert [first] + (rest + [Step(t, op).1]) == [first] + rest + [Step(t, op).1];
    }
  }

  predicate OnMedia(size: nat, op: Op) {
    match op
    case WriteOp(start, data) => 0 <= start && start + |data| <= size
    case ReadOp(start, n) => 0 <= start && start + n <= size
    case Timeout => true
  }

  predicate AllOnMedia(size: nat, ops: seq<Op>) {
    forall i | 0 <= i < |ops| :: OnMedia(size, ops[i])
  }

  /** The reference: an array of blocks without any cache. */
  function PlainStep(blocks: seq<Block>, op: Op): (seq<Block>, Seen)
    requires OnMedia(|blocks|, op)
  {
    match op
    case WriteOp(start, data) => (Overlay(blocks, start, data), Seen(|data|, []))
    case ReadOp(start, n) => (blocks, Seen(n, blocks[start..start + n]))
    case Timeout => (blocks, Seen(0, []))
  }

  function PlainRun(blocks: seq<Block>, ops: seq<Op>): (r: (seq<Block>, seq<Seen>))
    requires AllOnMedia(|blocks|, ops)
    ensures |r.1| == |ops|
    decreases |ops|
  {
    if ops == [] then (blocks, [])
    else
      var (after, seen) := PlainStep(blocks, ops[0]);
      var (last, rest) := PlainRun(after, ops[1..]);
      (last, [seen] + rest)
  }

  /** Every block write the run asks for, in order. */
  function Accepted(ops: seq<Op>): seq<BlockWrite> {
    if ops == [] then []
    else (if ops[0].WriteOp? then Tagged(ops[0].start, ops[0].data) else []) + Accepted(ops[1..])
  }

  predicate Sound(s: Rwb) { Healthy(s) && WrSized(s.cfg) }

  lemma StepMeaning(s: Rwb, op: Op)
    requires Sound(s) && OnMedia(|s.dev.media|, op)
    ensures var t := Step(s, op).0;
            Sound(t) && t.cfg == s.cfg && |t.dev.media| == |s.dev.media|
            && Logical(t) == PlainStep(Logical(s), op).0 && Committed(t) == Committed(s) + Accepted([op])
  {
    hide ReadLoop;
    assert Accepted([op][1..]) == [];
    match op
    case WriteOp(start, data) =>
      WriteMeaning(s, start, data);
      DropWindowMeaning(s, start, |data|);
      assert Accepted([op]) == Tagged(start, data);
    case ReadOp(start, n) =>
      ReadKeeps(s, start, n);
    case Timeout =>
      FlushMeaning(s);
  }

  /** Exactly-once, in-order write-behind over every run: what reached the device followed by
      what is still buffered is what rwb_write accepted. The logical contents are those
      of the plain array. Neither needs any assumption about the read-ahead cache. */
  lemma {:induction false} RunCommits(s: Rwb, ops: seq<Op>)
    requires Sound(s) && AllOnMedia(|s.dev.media|, ops)
    ensures var t := Run(s, ops).0;
            Sound(t) && Logical(t) == PlainRun(Logical(s), ops).0 && Committed(t) == Committed(s) + Accepted(ops)
    decreases |ops|
  {
    if ops != [] {
      hide Step, PlainStep;
      var t := Step(s, ops[0]).0;
      StepMeaning(s, ops[0]);
      RunCommits(t, ops[1..]);
      AcceptedSplit(ops);
    }
  }

  lemma AcceptedSplit(ops: seq<Op>)
    requires ops != []
    ensures Accepted(ops) == Accepted([ops[0]]) + Accepted(ops[1..])
  {
    assert [ops[0]][1..] == [];
  }

  // ---------------------------------------------------------------- the log and the media

  /** The media after the block writes of `log`, one after the other. */
  function Replay(media: seq<Block>, log: seq<BlockWrite>): (r: seq<Block>)
    ensures |r| == |media|
  {
    if log == [] then media
    else
      var before, w := Replay(media, log[..|log| - 1]), log[|log| - 1];
      if 0 <= w.index < |before| then before[w.index := w.data] else before
  }

  lemma {:induction false} ReplayConcat(media: seq<Block>, a: seq<BlockWrite>, b: seq<BlockWrite>)
    ensures Replay(media, a + b) == Replay(Replay(media, a), b)
    decreases |b|
  {
    if b == [] {
      assert a + b == a;
    } else {
      var n := |b| - 1;
      assert (a + b)[..|a| + n] == a + b[..n];
      ReplayConcat(media, a, b[..n]);
    }
  }

  lemma {:induction false} ReplayTagged(media: seq<Block>, start: int, data: seq<Block>)
    requires 0 <= start && start + |data| <= |media|
    ensures Replay(media, Tagged(start, data)) == Overlay(media, start, data)
    decreases |data|
  {
    if data == [] {
      assert Overlay(media, start, data) == media;
    } else {
      var n := |data| - 1;
      assert Tagged(start, data)[..n] == Tagged(start, data[..n]);
      ReplayTagged(media, start, data[..n]);
      assert Overlay(media, start, data) == Overlay(media, start, data[..n])[start + n := data[n]];
    }
  }

  /** The device's log tells how its media came about. */
  ghost predicate Faithful(media: seq<Block>, dev: Device) { dev.media == Replay(media, dev.log) }

  lemma DeviceStaysFaithful(media: seq<Block>, dev: Device, start: int, data: seq<Block>)
    requires Faithful(media, dev)
    ensures Faithful(media, dev.Write(start, data).0)
  {
    hide Replay;
    if dev.Accepts(start, |data|) {
      ReplayConcat(media, dev.log, Tagged(start, data));
      ReplayTagged(dev.media, start, data);
    }
  }

  lemma StepStaysFaithful(media: seq<Block>, s: Rwb, op: Op)
    requires Faithful(media, s.dev)
    ensures Faithful(media, Step(s, op).0.dev)
  {
    hide Faithful, ReadLoop;
    DeviceStaysFaithful(media, s.dev, s.wr.start, s.wr.data);
    if op.WriteOp? {
      DeviceStaysFaithful(media, s.dev, op.start, op.data);
      DeviceStaysFaithful(media, WrFlush(DropWindow(s, op.start, |op.data|)).dev, op.start, op.data);
    }
  }

  /** Over every run, failing devices and any sizes included, replaying the block writes delivered gives the
      media. */
  lemma {:induction false} RunStaysFaithful(media: seq<Block>, s: Rwb, ops: seq<Op>)
    requires Faithful(media, s.dev)
    ensures Faithful(media, Run(s, ops).0.dev)
    decreases |ops|
  {
    hide Faithful, Step;
    if ops != [] {
      StepStaysFaithful(media, s, ops[0]);
      RunStaysFaithful(media, Step(s, ops[0]).0, ops[1..]);
    }
  }

  /** The plain array is what replaying the accepted block writes gives; so the contents of the cache are too. */
  lemma {:induction false} AcceptedReplays(blocks: seq<Block>, ops: seq<Op>)
    requires AllOnMedia(|blocks|, ops)
    ensures PlainRun(blocks, ops).0 == Replay(blocks, Accepted(ops))
    decreases |ops|
  {
    if ops != [] {
      var after := PlainStep(blocks, ops[0]).0;
      AcceptedReplays(after, ops[1..]);
      if ops[0].WriteOp? {
        ReplayTagged(blocks, ops[0].start, ops[0].data);
        ReplayConcat(blocks, Tagged(ops[0].start, ops[0].data), Accepted(ops[1..]));
      } else {
        assert Accepted(ops) == Accepted(ops[1..]);
      }
    }
  }

  /** No reload of the run loads a block that is dirty with different contents. */
  ghost predicate Clean(s: Rwb, ops: seq<Op>)
    requires Sound(s) && AllOnMedia(|s.dev.media|, ops)
    decreases |ops|
  {
    ops == [] ||
    (!(ops[0].ReadOp? && LoadsStale(s, ops[0].start, ops[0].n)) &&
     (StepMeaning(s, ops[0]); Clean(Step(s, ops[0]).0, ops[1..])))
  }

  lemma StepKeepsCoherenceIff(s: Rwb, op: Op)
    requires Sound(s) && RhSized(s.cfg) && Coherent(s) && OnMedia(|s.dev.media|, op)
    ensures Coherent(Step(s, op).0) <==> !(op.ReadOp? && LoadsStale(s, op.start, op.n))
  {
    hide ReadLoop, LoadsStale, Coherent;
    match op
    case WriteOp(start, data) => WriteKeepsCoherence(s, start, data);
    case ReadOp(start, n) => ReadKeepsCoherenceIff(s, start, n);
    case Timeout => FlushKeepsCoherence(s);
  }

  lemma StepRefines(s: Rwb, op: Op)
    requires Sound(s) && RhSized(s.cfg) && Coherent(s) && OnMedia(|s.dev.media|, op)
    ensures Step(s, op).1 == PlainStep(Logical(s), op).1
  {
    hide ReadLoop;
    match op
    case WriteOp(start, data) => WriteMeaning(s, start, data);
    case ReadOp(start, n) =>
      ReadMeaning(s, start, n);
      ReadExact(s, start, n);
    case Timeout =>
  }

  /** Cache coherence: in every clean run each call returns what the plain array returns. */
  lemma {:induction false} RunRefines(s: Rwb, ops: seq<Op>)
    requires Sound(s) && RhSized(s.cfg) && Coherent(s) && AllOnMedia(|s.dev.media|, ops) && Clean(s, ops)
    ensures Run(s, ops).1 == PlainRun(Logical(s), ops).1
    decreases |ops|
  {
    if ops != [] {
      hide Step, PlainStep;
      StepMeaning(s, ops[0]);
      StepKeepsCoherenceIff(s, ops[0]);
      StepRefines(s, ops[0]);
      RunRefines(Step(s, ops[0]).0, ops[1..]);
    }
  }

  /** Cleanness is the exact condition: it fails as soon as some read, issued at some point of
      the run, would not return the last-written contents. */
  lemma {:induction false} CleanExactly(s: Rwb, ops: seq<Op>)
    requires Sound(s) && RhSized(s.cfg) && Coherent(s) && AllOnMedia(|s.dev.media|, ops)
    ensures Clean(s, ops) <==> forall k | 0 <= k <= |ops| :: EveryReadRight(Run(s, ops[..k]).0)
    decreases |ops|
  {
    assert EveryReadRight(Run(s, ops[..0]).0) by { CoherentIffEveryReadRight(s); }
    if ops != [] {
      hide Step, LoadsStale, EveryReadRight;
      var t, rest := Step(s, ops[0]).0, ops[1..];
      StepMeaning(s, ops[0]);
      StepKeepsCoherenceIff(s, ops[0]);
      EveryReadRightIff(t);
      forall k | 0 <= k <= |rest| ensures Run(s, ops[..k + 1]).0 == Run(t, rest[..k]).0 {
        assert ops[..k + 1][1..] == rest[..k];
      }
      if Coherent(t) {
        CleanExactly(t, rest);
        if forall k | 0 <= k <= |rest| :: EveryReadRight(Run(t, rest[..k]).0) {
          forall k | 0 < k <= |ops| ensures EveryReadRight(Run(s, ops[..k]).0) {
            assert Run(s, ops[..(k - 1) + 1]).0 == Run(t, rest[..k - 1]).0;
          }
        }
      } else {
        assert Run(s, ops[..0 + 1]).0 == Run(t, rest[..0]).0 == t;
      }
    }
  }

  ghost predicate EveryReadRight(s: Rwb) {
    forall start: int, n: nat | Fits(s.dev, start, n) :: Read(s, start, n).data == Logical(s)[start..start + n]
  }

  lemma EveryReadRightIff(s: Rwb)
    requires Healthy(s) && RhSized(s.cfg)
    ensures EveryReadRight(s) <==> Coherent(s)
  {
    hide ReadLoop;
    CoherentIffEveryReadRight(s);
  }

  /** With one cache only, every run is clean. */
  lemma {:induction false} SingleCacheIsClean(s: Rwb, ops: seq<Op>)
    requires Sound(s) && AllOnMedia(|s.dev.media|, ops) && !(s.cfg.wrBuilt && s.cfg.rhBuilt)
    ensures Clean(s, ops)
    decreases |ops|
  {
    if ops != [] {
      hide Step;
      StepMeaning(s, ops[0]);
      SingleCacheIsClean(Step(s, ops[0]).0, ops[1..]);
    }
  }

  lemma InitialIsCoherent(cfg: Config, media: seq<Block>)
    requires WrSized(cfg)
    ensures var s := Initial(cfg, Device(media, {}, []));
            Sound(s) && Coherent(s) && Logical(s) == media && Committed(s) == []
  {
  }

  /** With one cache only, every run from initialization agrees with the plain array. */
  lemma SingleCacheRefines(cfg: Config, media: seq<Block>, ops: seq<Op>)
    requires WrSized(cfg) && RhSized(cfg) && !(cfg.wrBuilt && cfg.rhBuilt) && AllOnMedia(|media|, ops)
    ensures Run(Initial(cfg, Device(media, {}, [])), ops).1 == PlainRun(media, ops).1
  {
    var s := Initial(cfg, Device(media, {}, []));
    InitialIsCoherent(cfg, media);
    SingleCacheIsClean(s, ops);
    RunRefines(s, ops);
  }

  /** With both caches the unconditional law fails: write block 5, read block 0 (which
      prefetches the old block 5), read block 5 back, and the old contents come out. */
  lemma StaleReadBack()
    ensures var media := seq(8, _ => [0]);
            var s := Initial(Config(true, 4, true, 8), Device(media, {}, []));
            var ops := [WriteOp(5, [[1]]), ReadOp(0, 1), ReadOp(5, 1)];
            AllOnMedia(8, ops) && Run(s, ops).1[2].data != PlainRun(media, ops).1[2].data
  {
    hide Run, PlainRun, Read, Write;
    var media: seq<Block> := seq(8, _ => [0]);
    var s := Initial(Config(true, 4, true, 8), Device(media, {}, []));
    var ops := [WriteOp(5, [[1]]), ReadOp(0, 1), ReadOp(5, 1)];
    StaleWindow(media);
    RunOfThree(s, ops);
    PlainRunOfThree(media, ops);
    assert Overlay(media, 5, [[1]])[5..6] == [[1]];
  }

  lemma StaleWindow(media: seq<Block>)
    requires media == seq(8, _ => [0])
    ensures var s := Initial(Config(true, 4, true, 8), Device(media, {}, []));
            var r := Read(Read(Write(s, 5, [[1]]).0, 0, 1).s, 5, 1);
            r.ret == 1 && r.data != [[1]]
  {
    hide ReadLoop, CeilDiv, Read;
    var s := Initial(Config(true, 4, true, 8), Device(media, {}, []));
    var s1 := Write(s, 5, [[1]]).0;
    assert s1 == Rwb(s.cfg, s.dev, Extent(5, [[1]]), 6, Nothing);
    ReadAhead(s1, 0, 1);
    var s2 := Read(s1, 0, 1).s;
    assert s2.rh == Extent(0, media[0..8]);
    ReadKeeps(s1, 0, 1);
    ReadMeaning(s2, 5, 1);
    ReadExact(s2, 5, 1);
    assert Logical(s2)[5..6] == [[1]];
    assert s2.rh.Hit(5, 1) == 1 && s2.rh.At(5) == [0];
  }

  lemma RunOfThree(s: Rwb, ops: seq<Op>)
    requires |ops| == 3
    ensures Run(s, ops).1[2] == Step(Step(Step(s, ops[0]).0, ops[1]).0, ops[2]).1
  {
    hide Step;
    assert ops[1..][1..] == ops[2..];
    var s1 := Step(s, ops[0]).0;
    var s2 := Step(s1, ops[1]).0;
    assert Run(s2, ops[2..]).1[0] == Step(s2, ops[2]).1;
    assert Run(s1, ops[1..]).1[1] == Step(s2, ops[2]).1;
  }

  lemma PlainRunOfThree(blocks: seq<Block>, ops: seq<Op>)
    requires |ops| == 3 && AllOnMedia(|blocks|, ops)
    ensures PlainRun(blocks, ops).1[2] == PlainStep(PlainStep(PlainStep(blocks, ops[0]).0, ops[1]).0, ops[2]).1
  {
    assert ops[1..][1..] == ops[2..];
    var b1 := PlainStep(blocks, ops[0]).0;
    var b2 := PlainStep(b1, ops[1]).0;
    assert PlainRun(b2, ops[2..]).1[0] == PlainStep(b2, ops[2]).1;
    assert PlainRun(b1, ops[1..]).1[1] == PlainStep(b2, ops[2]).1;
  }
}
