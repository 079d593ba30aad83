/** What the block cache promises: it behaves like the plain block array it speeds up. */
module RwCoherence {
  import opened Platform
  import opened RwModel

  /** The contents a caller believes in: the media with the dirty blocks laid over it. */
  function Logical(s: Rwb): seq<Block> {
    Overlay(s.dev.media, s.wr.start, s.wr.data)
  }

  /** Block writes handed to the device, followed by those still buffered. */
  function Committed(s: Rwb): seq<BlockWrite> {
    s.dev.log + Tagged(s.wr.start, s.wr.data)
  }

  /** A write buffer that is compiled in has room for a block. */
  predicate WrSized(c: Config) { c.wrBuilt ==> c.wrMax > 0 }

  /** So has a read-ahead cache that is compiled in. */
  predicate RhSized(c: Config) { c.rhBuilt ==> c.rhMax > 0 }

  predicate Fits(dev: Device, start: int, n: nat) {
    0 <= start && start + n <= |dev.media|
  }

  /** No bad blocks, both extents on the media, and each extent only where its cache exists. */
  predicate Healthy(s: Rwb) {
    && s.dev.bad == {}
    && |s.wr.data| <= s.cfg.wrMax
    && (|s.wr.data| > 0 ==>
          s.cfg.Writes() && Fits(s.dev, s.wr.start, |s.wr.data|) && s.wrExpected == s.wr.start + |s.wr.data|)
    && (|s.rh.data| > 0 ==> s.cfg.ReadsAhead() && Fits(s.dev, s.rh.start, |s.rh.data|))
  }

  /** Every prefetched block holds the logical contents. */
  predicate Coherent(s: Rwb) {
    forall b | s.rh.Has(b) && 0 <= b < |s.dev.media| :: s.rh.At(b) == Logical(s)[b]
  }

  // ---------------------------------------------------------------- extents

  predicate InExtent(b: int, start: int, n: nat) { start <= b < start + n }

  /** rwb_overlap answers false exactly when at least one block lies between the two extents;
      so a true answer for non-empty extents means that they share a block or touch. */
  lemma OverlapMeans(start1: int, n1: nat, start2: int, n2: nat)
    ensures !Overlap(start1, n1, start2, n2) ==> forall b | InExtent(b, start1, n1) :: !InExtent(b, start2, n2)
    ensures n1 > 0 && n2 > 0 ==>
              (Overlap(start1, n1, start2, n2) <==>
               start1 + n1 == start2 || start2 + n2 == start1 ||
               exists b :: InExtent(b, start1, n1) && InExtent(b, start2, n2))
  {
    if n1 > 0 && n2 > 0 && Overlap(start1, n1, start2, n2) && start1 + n1 != start2 && start2 + n2 != start1 {
      var b := if start1 < start2 then start2 else start1;
      assert InExtent(b, start1, n1) && InExtent(b, start2, n2);
    }
  }

  lemma OverlayTwice(base: seq<Block>, start: int, a: seq<Block>, b: seq<Block>)
    ensures Overlay(Overlay(base, start, a), start + |a|, b) == Overlay(base, start, a + b)
    ensures Tagged(start, a) + Tagged(start + |a|, b) == Tagged(start, a + b)
  {
  }

  // ---------------------------------------------------------------- writes and flushes

  /** A flush moves the dirty blocks to the media without changing what a caller sees. */
  lemma FlushMeaning(s: Rwb)
    requires Healthy(s)
    ensures var t := WrFlush(s);
            && Healthy(t) && t.rh == s.rh && t.wr.data == []
            && Logical(t) == Logical(s) == t.dev.media && Committed(t) == Committed(s)
  {
    if |s.wr.data| == 0 {
      assert Logical(s) == s.dev.media;
    } else {
      assert Logical(WrFlush(s)) == Logical(s);
    }
  }

  /** From any state a flush leaves the buffer empty and the window alone; blocks the device refuses are lost. */
  lemma FlushStatus(s: Rwb)
    ensures var t := WrFlush(s);
            && t.wr.data == [] && t.rh == s.rh && t.cfg == s.cfg
            && (if s.dev.Accepts(s.wr.start, |s.wr.data|) then t.dev.log == s.dev.log + Tagged(s.wr.start, s.wr.data)
                else t.dev == s.dev)
  {
    if s.wr.data == [] { assert s.dev.log + Tagged(s.wr.start, s.wr.data) == s.dev.log; }
  }

  lemma FlushKeepsCoherence(s: Rwb)
    requires Healthy(s) && Coherent(s)
    ensures Coherent(WrFlush(s))
  {
    FlushMeaning(s);
  }

  /** `t` is `s` after a plain array store of `data` at `start`, with exactly those blocks,
      in order, added to the committed writes. */
  predicate Stored(s: Rwb, t: Rwb, start: int, data: seq<Block>) {
    && Healthy(t) && t.cfg == s.cfg && t.rh == s.rh
    && Logical(t) == Overlay(Logical(s), start, data)
    && Committed(t) == Committed(s) + Tagged(start, data)
  }

  lemma AppendMeaning(s: Rwb, start: int, data: seq<Block>)
    requires Healthy(s) && s.cfg.Writes() && Fits(s.dev, start, |data|)
    requires !MustFlush(s, start, |data|)
    ensures Stored(s, Append(s, start, data), start, data)
  {
    if |s.wr.data| == 0 {
      assert Append(s, start, data).wr.data == data;
      assert Logical(s) == s.dev.media;
      assert Tagged(s.wr.start, s.wr.data) == [];
    } else {
      OverlayTwice(s.dev.media, s.wr.start, s.wr.data, data);
    }
  }

  lemma WriteBufferMeaning(s: Rwb, start: int, data: seq<Block>)
    requires Healthy(s) && s.cfg.Writes() && Fits(s.dev, start, |data|) && |data| <= s.cfg.wrMax
    ensures WriteBuffer(s, start, data).1 == |data|
    ensures Stored(s, WriteBuffer(s, start, data).0, start, data)
  {
    if MustFlush(s, start, |data|) {
      FlushMeaning(s);
      AppendMeaning(WrFlush(s), start, data);
    } else {
      AppendMeaning(s, start, data);
    }
  }

  lemma DirectWriteMeaning(s: Rwb, start: int, data: seq<Block>)
    requires Healthy(s) && Fits(s.dev, start, |data|) && s.wr.data == []
    ensures s.dev.Write(start, data).1 == |data|
    ensures Stored(s, s.(dev := s.dev.Write(start, data).0), start, data)
  {
    assert Tagged(s.wr.start, s.wr.data) == [];
    assert Logical(s) == s.dev.media;
  }

  lemma DropWindowMeaning(s: Rwb, start: int, n: nat)
    requires Healthy(s)
    ensures var t := DropWindow(s, start, n); Healthy(t) && t == s.(rh := t.rh) && (t.rh == s.rh || t.rh == Nothing)
    ensures forall b | DropWindow(s, start, n).rh.Has(b) :: !InExtent(b, start, n)
  {
    OverlapMeans(s.rh.start, |s.rh.data|, start, n);
    assert forall b :: s.rh.Has(b) <==> InExtent(b, s.rh.start, |s.rh.data|);
  }

  /** A write returns the number of its blocks and acts as a plain array store. */
  predicate Stores(s: Rwb, start: int, data: seq<Block>) {
    var (t, ret) := Write(s, start, data);
    && ret == |data| && Logical(t) == Overlay(Logical(s), start, data)
    && Committed(t) == Committed(s) + Tagged(start, data)
  }

  /** A write on the media succeeds and acts as a plain array store, whether it is buffered,
      coalesced, flushes first, or bypasses the buffer. */
  lemma WriteMeaning(s: Rwb, start: int, data: seq<Block>)
    requires Healthy(s) && WrSized(s.cfg) && Fits(s.dev, start, |data|)
    ensures Stores(s, start, data)
    ensures Stored(DropWindow(s, start, |data|), Write(s, start, data).0, start, data)
  {
    var s1 := DropWindow(s, start, |data|);
    DropWindowMeaning(s, start, |data|);
    if !s.cfg.wrBuilt {
      DirectWriteMeaning(s1, start, data);
    } else if |data| > s.cfg.wrMax {
      FlushMeaning(s1);
      DirectWriteMeaning(WrFlush(s1), start, data);
    } else {
      WriteBufferMeaning(s1, start, data);
    }
  }

  /** Write-behind: a write reaches the device in its call exactly when there is no buffer, or it is larger than
      the buffer, or dirty blocks stand in its way that it does not continue or that leave no room. */
  lemma WriteReachesDeviceIff(s: Rwb, start: int, data: seq<Block>)
    requires Healthy(s) && WrSized(s.cfg) && Fits(s.dev, start, |data|) && data != []
    ensures Write(s, start, data).0.dev != s.dev <==>
            || !s.cfg.wrBuilt || |data| > s.cfg.wrMax
            || (s.wr.data != [] && (start != s.wr.start + |s.wr.data| || |s.wr.data| + |data| > s.cfg.wrMax))
  {
    var s1 := DropWindow(s, start, |data|);
    LogGrows(s.dev, start, data);
    LogGrows(s.dev, s.wr.start, s.wr.data);
    LogGrows(WrFlush(s1).dev, start, data);
  }

  lemma LogGrows(dev: Device, start: int, data: seq<Block>)
    ensures var (d, r) := dev.Write(start, data);
            |d.log| == |dev.log| + (if r >= 0 then |data| else 0) && (r >= 0 ==> r == |data|)
  {
  }

  /** What a write returns from any state, failing devices included: its number of blocks, or -EIO exactly when
      the device refuses the transfer it makes; a refused flush leaves the buffer as it was. */
  lemma WriteStatus(s: Rwb, start: int, data: seq<Block>)
    requires WrSized(s.cfg)
    ensures var (t, ret) := Write(s, start, data);
            var direct := !s.cfg.wrBuilt || |data| > s.cfg.wrMax;
            var refused := if direct then !s.dev.Accepts(start, |data|)
                           else MustFlush(s, start, |data|) && !s.dev.Accepts(s.wr.start, |s.wr.data|);
            && ret == (if refused then -EIO else |data|)
            && (refused && !direct ==> t.wr == s.wr && t.dev == s.dev)
  {
    AcceptsAfterFlush(s, start, |data|);
  }

  lemma AcceptsAfterFlush(s: Rwb, start: int, n: nat)
    ensures WrFlush(s).dev.Accepts(start, n) <==> s.dev.Accepts(start, n)
  {
  }

  /** A write drops the window exactly when they share a block or touch. */
  lemma WriteKeepsWindowIff(s: Rwb, start: int, data: seq<Block>)
    requires Healthy(s) && s.rh.data != []
    ensures Write(s, start, data).0.rh == s.rh <==>
            start + |data| < s.rh.start || start > s.rh.start + |s.rh.data|
  {
  }

  /** A read flushes dirty blocks exactly when it shares a block with them or touches them. */
  lemma ReadKeepsBufferIff(s: Rwb, start: int, n: nat)
    requires Healthy(s) && s.wr.data != []
    ensures Read(s, start, n).s.wr == s.wr <==>
            start + n < s.wr.start || start > s.wr.start + |s.wr.data|
  {
    hide ReadLoop;
  }

  /** A write leaves in the window only blocks it did not store. */
  lemma WriteKeepsCoherence(s: Rwb, start: int, data: seq<Block>)
    requires Healthy(s) && WrSized(s.cfg) && Fits(s.dev, start, |data|) && Coherent(s)
    ensures Coherent(Write(s, start, data).0)
  {
    var t := Write(s, start, data).0;
    DropWindowMeaning(s, start, |data|);
    WriteMeaning(s, start, data);
    forall b | t.rh.Has(b) && 0 <= b < |t.dev.media|
      ensures t.rh.At(b) == Logical(t)[b]
    {
      assert !InExtent(b, start, |data|);
      assert Logical(t)[b] == Logical(s)[b];
    }
  }

  /** Exactly a write buffer compiled in with no blocks breaks writes: it loses every one of them,
      reports success and leaves the contents as they were. */
  lemma WriteStoresIff(s: Rwb, start: int, data: seq<Block>)
    requires Healthy(s) && Fits(s.dev, start, |data|)
    ensures Stores(s, start, data) <==> WrSized(s.cfg) || data == []
    ensures !WrSized(s.cfg) ==>
              var (t, ret) := Write(s, start, data);
              ret == 0 && Logical(t) == Logical(s) && Committed(t) == Committed(s)
  {
    if WrSized(s.cfg) {
      WriteMeaning(s, start, data);
    } else {
      assert Tagged(start, []) == [] && Overlay(Logical(s), start, []) == Logical(s);
    }
  }

  // ---------------------------------------------------------------- reads

  /** Number of reloads needed for `n` blocks outside the window: n / w rounded up. */
  function CeilDiv(n: nat, w: nat): nat
    requires w > 0
  {
    if n == 0 then 0 else if n <= w then 1 else 1 + CeilDiv(n - w, w)
  }

  lemma {:induction false} CeilDivMeans(n: nat, w: nat)
    requires w > 0
    ensures n <= CeilDiv(n, w) * w < n + w
  {
    if n > w { CeilDivMeans(n - w, w); }
  }

  lemma {:induction false} CeilDivMonotone(m: nat, n: nat, w: nat)
    requires w > 0 && m <= n
    ensures CeilDiv(m, w) <= CeilDiv(n, w)
  {
    if m > w { CeilDivMonotone(m - w, n - w, w); }
  }

  /** Where the last of those reloads starts. */
  function LastReload(start: int, n: nat, w: nat): (r: int)
    requires w > 0 && n > 0
    ensures start <= r < start + n
    decreases n
  {
    if n <= w then start else LastReload(start + w, n - w, w)
  }

  /** The window after a reload from `start`. */
  function Reloaded(dev: Device, w: nat, start: int): Extent
    requires 0 <= start <= |dev.media|
  {
    Extent(start, dev.media[start..WindowEnd(dev, w, start)])
  }

  /** One reload on the media: it succeeds, and the new window serves from the media. */
  lemma ReloadMeaning(dev: Device, w: nat, rh: Extent, start: int, n: nat)
    requires dev.bad == {} && w > 0 && Fits(dev, start, n) && n > 0
    ensures RhReload(dev, w, rh, start) == (Reloaded(dev, w, start), WindowEnd(dev, w, start) - start)
    ensures var t, k := Reloaded(dev, w, start), if n <= w then n else w;
            t.Hit(start, n) == k && t.Served(start, n) == dev.media[start..start + k] && !t.Has(start + w)
  {
  }

  lemma LoopReloads(dev: Device, w: nat, rh: Extent, start: int, n: nat)
    requires dev.bad == {} && w > 0 && Fits(dev, start, n) && n > 0 && !rh.Has(start)
    ensures ReadLoop(dev, w, rh, start, n) == ReadLoop(dev, w, Reloaded(dev, w, start), start, n).After([])
  {
    ReloadMeaning(dev, w, rh, start, n);
  }

  lemma LoopHits(dev: Device, w: nat, rh: Extent, start: int, n: nat)
    requires w > 0 && rh.Hit(start, n) == n
    ensures ReadLoop(dev, w, rh, start, n) == LoopOut(rh, 0, rh.Served(start, n), 0)
  {
  }

  /** Outside the window the loop copies the media itself and leaves the window at the last reload. */
  lemma {:induction false} LoopOutside(dev: Device, w: nat, rh: Extent, start: int, n: nat)
    requires dev.bad == {} && w > 0 && Fits(dev, start, n) && n > 0 && !rh.Has(start)
    ensures ReadLoop(dev, w, rh, start, n)
            == LoopOut(Reloaded(dev, w, LastReload(start, n, w)), 0, dev.media[start..start + n], CeilDiv(n, w))
    decreases n
  {
    hide ReadLoop, RhReload, Reloaded, WindowEnd;
    var t := Reloaded(dev, w, start);
    LoopReloads(dev, w, rh, start, n);
    ReloadMeaning(dev, w, rh, start, n);
    if n <= w {
      LoopHits(dev, w, t, start, n);
    } else {
      LoopPastWindow(dev, w, t, start, n);
      LoopOutside(dev, w, t, start + w, n - w);
      assert dev.media[start..start + n] == dev.media[start..start + w] + dev.media[start + w..start + n];
    }
  }

  lemma LoopUnfold(dev: Device, w: nat, rh: Extent, start: int, n: nat, k: nat)
    requires w > 0 && k == rh.Hit(start, n) < n
    ensures var (rh', ret) := RhReload(dev, w, rh, start + k);
            ReadLoop(dev, w, rh, start, n) ==
            if ret < 0 then LoopOut(rh', ret, rh.Served(start, n), 1)
            else ReadLoop(dev, w, rh', start + k, n - k).After(rh.Served(start, n))
  {
    hide RhReload;
  }

  /** `rest` is what remains of the loop that should come to `total` once `out` is delivered. */
  predicate Resumes(total: LoopOut, out: seq<Block>, rest: LoopOut) {
    total.rh == rest.rh && total.ret == rest.ret && total.data == out + rest.data
  }

  lemma ResumesAtStart(total: LoopOut)
    ensures Resumes(total, [], total)
  {
  }

  /** One turn of the loop that ends in a reload. */
  lemma ResumesAfterReload(dev: Device, w: nat, rh: Extent, start: int, n: nat, total: LoopOut, out: seq<Block>)
    requires w > 0 && rh.Hit(start, n) < n && Resumes(total, out, ReadLoop(dev, w, rh, start, n))
    ensures var k := rh.Hit(start, n);
            var (rh', ret) := RhReload(dev, w, rh, start + k);
            if ret < 0 then total.rh == rh' && total.ret == ret && total.data == out + rh.Served(start, n)
            else Resumes(total, out + rh.Served(start, n), ReadLoop(dev, w, rh', start + k, n - k))
  {
    hide ReadLoop, RhReload;
    LoopUnfold(dev, w, rh, start, n, rh.Hit(start, n));
  }

  /** The turn that serves the last blocks. */
  lemma ResumesAtEnd(dev: Device, w: nat, rh: Extent, start: int, n: nat, total: LoopOut, out: seq<Block>)
    requires w > 0 && rh.Hit(start, n) == n && Resumes(total, out, ReadLoop(dev, w, rh, start, n))
    ensures total.rh == rh && total.ret == 0 && total.data == out + rh.Served(start, n)
    ensures Resumes(total, out + rh.Served(start, n), ReadLoop(dev, w, rh, start + n, 0))
  {
    hide ReadLoop;
    LoopHits(dev, w, rh, start, n);
    LoopHits(dev, w, rh, start + n, 0);
  }

  /** A loop that starts inside the window serves the hit first and goes on behind it. */
  lemma LoopPastWindow(dev: Device, w: nat, rh: Extent, start: int, n: nat)
    requires w > 0 && rh.Hit(start, n) < n
    ensures var k, rest := rh.Hit(start, n), ReadLoop(dev, w, rh, start + rh.Hit(start, n), n - rh.Hit(start, n));
            ReadLoop(dev, w, rh, start, n) == LoopOut(rest.rh, rest.ret, rh.Served(start, n) + rest.data, rest.reloads)
  {
    hide ReadLoop, RhReload;
    var k := rh.Hit(start, n);
    assert rh.Hit(start + k, n - k) == 0 && rh.Served(start + k, n - k) == [];
    LoopUnfold(dev, w, rh, start, n, k);
    LoopUnfold(dev, w, rh, start + k, n - k, 0);
    assert rh.Served(start, n) + [] == rh.Served(start, n);
  }

  /** The exact effect of the read loop: the hit comes from the window, the rest from the media. */
  lemma LoopMeaning(dev: Device, w: nat, rh: Extent, start: int, n: nat)
    requires dev.bad == {} && w > 0 && Fits(dev, start, n)
    ensures var k := rh.Hit(start, n);
            ReadLoop(dev, w, rh, start, n)
            == LoopOut(WindowAfter(dev, w, rh, start, n), 0, rh.Served(start, n) + dev.media[start + k..start + n],
                       CeilDiv(n - k, w))
  {
    hide ReadLoop, RhReload, LastReload;
    var k := rh.Hit(start, n);
    if k == n {
      LoopHits(dev, w, rh, start, n);
      assert rh.Served(start, n) + dev.media[start + k..start + n] == rh.Served(start, n);
    } else {
      LoopPastWindow(dev, w, rh, start, n);
      LoopOutside(dev, w, rh, start + k, n - k);
    }
  }

  /** The window a read of `n` blocks from `start` leaves behind. */
  function WindowAfter(dev: Device, w: nat, rh: Extent, start: int, n: nat): Extent
    requires w > 0 && Fits(dev, start, n)
  {
    var k := rh.Hit(start, n);
    if k == n then rh else Reloaded(dev, w, LastReload(start + k, n - k, w))
  }

  /** After the flush of rwb_read the media holds the logical contents of the requested blocks. */
  lemma FlushedForRead(s: Rwb, start: int, n: nat)
    requires Healthy(s) && Fits(s.dev, start, n)
    ensures var t := FlushForRead(s, start, n);
            Healthy(t) && t.cfg == s.cfg && t.rh == s.rh && |t.dev.media| == |s.dev.media|
            && Logical(t) == Logical(s) && Committed(t) == Committed(s)
    ensures var t := FlushForRead(s, start, n);
            forall b | start <= b < start + n :: t.dev.media[b] == Logical(s)[b]
  {
    var t := FlushForRead(s, start, n);
    FlushMeaning(s);
    OverlapMeans(s.wr.start, |s.wr.data|, start, n);
    forall b | start <= b < start + n ensures t.dev.media[b] == Logical(s)[b] {
      assert InExtent(b, start, n);
      assert s.wr.Has(b) <==> InExtent(b, s.wr.start, |s.wr.data|);
    }
  }

  /** What a read returns and leaves behind: the hit from the window, the rest as logically stored. */
  lemma ReadAhead(s: Rwb, start: int, n: nat)
    requires Healthy(s) && s.cfg.ReadsAhead() && Fits(s.dev, start, n)
    ensures var t, k := FlushForRead(s, start, n), s.rh.Hit(start, n);
            Read(s, start, n) == ReadOut(t.(rh := WindowAfter(t.dev, s.cfg.rhMax, s.rh, start, n)), n,
                                         s.rh.Served(start, n) + Logical(s)[start + k..start + n],
                                         CeilDiv(n - k, s.cfg.rhMax))
  {
    hide ReadLoop;
    var t, k := FlushForRead(s, start, n), s.rh.Hit(start, n);
    FlushedForRead(s, start, n);
    LoopMeaning(t.dev, s.cfg.rhMax, s.rh, start, n);
    assert t.dev.media[start + k..start + n] == Logical(s)[start + k..start + n];
  }

  /** Without a read-ahead cache a read is a device read behind the flush. */
  lemma ReadDirect(s: Rwb, start: int, n: nat)
    requires Healthy(s) && !s.cfg.rhBuilt && Fits(s.dev, start, n)
    ensures Read(s, start, n) == ReadOut(FlushForRead(s, start, n), n, Logical(s)[start..start + n], 0)
  {
    var t := FlushForRead(s, start, n);
    FlushedForRead(s, start, n);
    assert t.dev.media[start..start + n] == Logical(s)[start..start + n];
  }

  /** A read on the media changes neither the logical contents nor the committed writes. */
  lemma ReadKeeps(s: Rwb, start: int, n: nat)
    requires Healthy(s) && Fits(s.dev, start, n)
    ensures var t := Read(s, start, n).s;
            && Healthy(t) && t.cfg == s.cfg && |t.dev.media| == |s.dev.media|
            && Logical(t) == Logical(s) && Committed(t) == Committed(s)
  {
    hide ReadLoop, CeilDiv;
    FlushedForRead(s, start, n);
    if s.cfg.ReadsAhead() { ReadAhead(s, start, n); }
  }

  /** A read returns the number of blocks asked for and that many blocks. */
  predicate Delivers(s: Rwb, start: int, n: nat) {
    var r := Read(s, start, n); r.ret == n && |r.data| == n
  }

  /** A read on the media succeeds and issues exactly one reload per full or partial window it
      still needs. */
  lemma ReadMeaning(s: Rwb, start: int, n: nat)
    requires Healthy(s) && RhSized(s.cfg) && Fits(s.dev, start, n)
    ensures Delivers(s, start, n)
    ensures s.cfg.rhBuilt ==>
              Read(s, start, n).reloads == CeilDiv(n - s.rh.Hit(start, n), s.cfg.rhMax) <= CeilDiv(n, s.cfg.rhMax)
  {
    hide ReadLoop;
    if s.cfg.rhBuilt {
      ReadAhead(s, start, n);
      CeilDivMonotone(n - s.rh.Hit(start, n), n, s.cfg.rhMax);
    } else {
      ReadDirect(s, start, n);
    }
  }

  /** Exactly a read-ahead cache compiled in with no blocks breaks reads: every read reports
      success and delivers nothing. */
  lemma ReadDeliversIff(s: Rwb, start: int, n: nat)
    requires Healthy(s) && Fits(s.dev, start, n)
    ensures Delivers(s, start, n) <==> RhSized(s.cfg) || n == 0
    ensures !RhSized(s.cfg) ==> Read(s, start, n).ret == 0 && Read(s, start, n).data == []
  {
    hide ReadLoop;
    if RhSized(s.cfg) { ReadMeaning(s, start, n); }
  }

  lemma {:induction false} LoopLength(dev: Device, w: nat, rh: Extent, start: int, n: nat)
    requires w > 0
    ensures var r := ReadLoop(dev, w, rh, start, n); r.ret <= 0 && |r.data| <= n && (r.ret == 0 ==> |r.data| == n)
    decreases n, if rh.Has(start) then 0 else 1
  {
    hide ReadLoop, RhReload;
    var k := rh.Hit(start, n);
    if k < n {
      LoopUnfold(dev, w, rh, start, n, k);
      ReloadServes(dev, w, rh, start + k);
      var (rh', ret) := RhReload(dev, w, rh, start + k);
      if ret >= 0 { LoopLength(dev, w, rh', start + k, n - k); }
    } else {
      LoopHits(dev, w, rh, start, n);
    }
  }

  /** How the read loop ends, failing devices included: with every block delivered, or at the first block it
      cannot deliver, with -ESPIPE if that block is not on the media and -EIO if the device refuses the
      window from there on. */
  lemma {:induction false} LoopStatus(dev: Device, w: nat, rh: Extent, start: int, n: nat)
    requires w > 0
    ensures var r := ReadLoop(dev, w, rh, start, n);
            var at := start + |r.data|;
            && |r.data| <= n && (|r.data| == n <==> r.ret == 0)
            && (|r.data| < n ==> r.ret == Failure(dev, w, at) < 0)
    decreases n, if rh.Has(start) then 0 else 1
  {
    hide ReadLoop, RhReload, Failure;
    var k := rh.Hit(start, n);
    if k < n {
      LoopUnfold(dev, w, rh, start, n, k);
      ReloadServes(dev, w, rh, start + k);
      ReloadFails(dev, w, rh, start + k);
      var (rh', ret) := RhReload(dev, w, rh, start + k);
      if ret >= 0 { LoopStatus(dev, w, rh', start + k, n - k); }
    } else {
      LoopHits(dev, w, rh, start, n);
    }
  }

  /** Why block `at` cannot be read; 0 if it can. */
  ghost function Failure(dev: Device, w: nat, at: int): int {
    if at < 0 || at >= |dev.media| then -ESPIPE
    else if exists b :: InExtent(b, at, WindowEnd(dev, w, at) - at) && b in dev.bad then -EIO
    else 0
  }

  lemma ReloadFails(dev: Device, w: nat, rh: Extent, at: int)
    requires w > 0
    ensures var (rh', ret) := RhReload(dev, w, rh, at);
            if Failure(dev, w, at) == 0 then ret > 0
            else ret == Failure(dev, w, at) < 0 && rh' == if ret == -EIO then Nothing else rh
  {
    if 0 <= at < |dev.media| {
      var n := WindowEnd(dev, w, at) - at;
      assert dev.Accepts(at, n) <==> !exists b :: InExtent(b, at, n) && b in dev.bad by {
        if !dev.Accepts(at, n) {
          var b :| at <= b < at + n && b in dev.bad;
          assert InExtent(b, at, n);
        }
      }
    }
  }

  /** What a read returns from any state: the number of blocks asked for if it delivered them all; otherwise the
      reason why the next block could not be read. */
  lemma ReadStatus(s: Rwb, start: int, n: nat)
    requires RhSized(s.cfg)
    ensures var r := Read(s, start, n);
            && (r.ret >= 0 ==> r.ret == n == |r.data|) && (r.ret < 0 ==> |r.data| < n || (n == 0 && !s.cfg.rhBuilt))
            && (r.ret < 0 && s.cfg.rhBuilt ==> r.ret == Failure(s.dev, s.cfg.rhMax, start + |r.data|))
            && (r.ret < 0 && !s.cfg.rhBuilt ==> r.ret == -EIO && r.data == [] && !s.dev.Accepts(start, n))
  {
    hide ReadLoop, Failure;
    var t := FlushForRead(s, start, n);
    FlushKeepsFailure(s, start, n);
    if s.cfg.ReadsAhead() {
      LoopStatus(t.dev, s.cfg.rhMax, t.rh, start, n);
      SameFailure(s.dev, t.dev, s.cfg.rhMax, start + |Read(s, start, n).data|);
    } else {
      AcceptsAfterFlush(s, start, n);
    }
  }

  lemma FlushKeepsFailure(s: Rwb, start: int, n: nat)
    ensures var t := FlushForRead(s, start, n);
            |t.dev.media| == |s.dev.media| && t.dev.bad == s.dev.bad && t.cfg == s.cfg
  {
  }

  lemma SameFailure(d: Device, e: Device, w: nat, at: int)
    requires |d.media| == |e.media| && d.bad == e.bad
    ensures Failure(d, w, at) == Failure(e, w, at)
  {
    assert WindowEnd(d, w, at) == WindowEnd(e, w, at);
  }

  lemma ReloadServes(dev: Device, w: nat, rh: Extent, start: int)
    requires w > 0
    ensures var (rh', ret) := RhReload(dev, w, rh, start); ret >= 0 ==> rh'.Has(start)
  {
  }

  /** A successful read returns the number of blocks it delivers, whatever state it starts from. */
  lemma ReadLength(s: Rwb, start: int, n: nat)
    ensures var r := Read(s, start, n); r.ret >= 0 ==> |r.data| == r.ret <= n
  {
    hide ReadLoop;
    if s.cfg.ReadsAhead() {
      var t := FlushForRead(s, start, n);
      LoopLength(t.dev, s.cfg.rhMax, t.rh, start, n);
    }
  }

  /** The blocks a read takes from the window, as it finds it, are up to date. */
  predicate HitFresh(s: Rwb, start: int, n: nat)
    requires Healthy(s)
  {
    forall b | start <= b < start + s.rh.Hit(start, n) :: s.rh.At(b) == Logical(s)[b]
  }

  lemma SameHead(a: seq<Block>, b: seq<Block>, tail: seq<Block>)
    requires |a| == |b|
    ensures a + tail == b + tail <==> a == b
  {
    assert a == (a + tail)[..|a|] && b == (b + tail)[..|b|];
  }

  lemma HitFreshIff(s: Rwb, start: int, n: nat)
    requires Healthy(s) && Fits(s.dev, start, n)
    ensures var k := s.rh.Hit(start, n);
            HitFresh(s, start, n) <==> s.rh.Served(start, n) == Logical(s)[start..start + k]
  {
    var k, l := s.rh.Hit(start, n), Logical(s);
    assert forall b | start <= b < start + k ::
        s.rh.Served(start, n)[b - start] == s.rh.At(b) && l[start..start + k][b - start] == l[b];
  }

  /** A read returns the last-written contents of every block exactly when the blocks it
      finds in the window are fresh. */
  lemma ReadExact(s: Rwb, start: int, n: nat)
    requires Healthy(s) && RhSized(s.cfg) && Fits(s.dev, start, n)
    ensures Read(s, start, n).data == Logical(s)[start..start + n] <==> HitFresh(s, start, n)
  {
    if s.cfg.rhBuilt {
      ReadAheadExact(s, start, n);
    } else {
      ReadDirect(s, start, n);
    }
  }

  lemma ReadAheadExact(s: Rwb, start: int, n: nat)
    requires Healthy(s) && s.cfg.ReadsAhead() && Fits(s.dev, start, n)
    ensures Read(s, start, n).data == Logical(s)[start..start + n] <==> HitFresh(s, start, n)
  {
    hide Read, CeilDiv, FlushForRead, WindowAfter, HitFresh;
    var k, l := s.rh.Hit(start, n), Logical(s);
    HitFreshIff(s, start, n);
    ReadAhead(s, start, n);
    SameHead(s.rh.Served(start, n), l[start..start + k], l[start + k..start + n]);
    assert l[start..start + n] == l[start..start + k] + l[start + k..start + n];
  }

  /** The state is coherent exactly when no read, of any extent, can return stale data. */
  lemma CoherentIffEveryReadRight(s: Rwb)
    requires Healthy(s) && RhSized(s.cfg)
    ensures Coherent(s) <==>
            forall start: int, n: nat | Fits(s.dev, start, n) :: Read(s, start, n).data == Logical(s)[start..start + n]
  {
    hide ReadLoop;
    if Coherent(s) {
      forall start: int, n: nat | Fits(s.dev, start, n)
        ensures Read(s, start, n).data == Logical(s)[start..start + n]
      {
        ReadExact(s, start, n);
      }
    } else {
      var b :| s.rh.Has(b) && 0 <= b < |s.dev.media| && s.rh.At(b) != Logical(s)[b];
      ReadExact(s, b, 1);
      assert Fits(s.dev, b, 1) && !HitFresh(s, b, 1);
    }
  }

  /** Reading back: after a write each block it stored reads as stored, and every other as before. */
  lemma WriteThenRead(s: Rwb, start: int, data: seq<Block>, first: int, n: nat, i: nat)
    requires Healthy(s) && WrSized(s.cfg) && RhSized(s.cfg) && Coherent(s)
    requires Fits(s.dev, start, |data|) && Fits(s.dev, first, n) && i < n
    ensures var after, before := Read(Write(s, start, data).0, first, n).data, Read(s, first, n).data;
            && |after| == n == |before|
            && after[i] == if start <= first + i < start + |data| then data[first + i - start] else before[i]
  {
    hide Read, Write, Coherent, HitFresh;
    var t := Write(s, start, data).0;
    WriteMeaning(s, start, data);
    WrittenState(s, start, data);
    WriteKeepsCoherence(s, start, data);
    CoherentIsFresh(s, first, n);
    CoherentIsFresh(t, first, n);
    ReadExact(s, first, n);
    ReadExact(t, first, n);
    assert Logical(t)[first..first + n][i] == Logical(t)[first + i];
    assert Logical(s)[first..first + n][i] == Logical(s)[first + i];
  }

  lemma WrittenState(s: Rwb, start: int, data: seq<Block>)
    requires Healthy(s) && WrSized(s.cfg) && Fits(s.dev, start, |data|)
    ensures var t := Write(s, start, data).0; Healthy(t) && t.cfg == s.cfg && |t.dev.media| == |s.dev.media|
  {
    WriteMeaning(s, start, data);
    DropWindowMeaning(s, start, |data|);
    assert |Logical(Write(s, start, data).0)| == |Logical(s)|;
  }

  lemma CoherentIsFresh(s: Rwb, start: int, n: nat)
    requires Healthy(s) && Coherent(s) && Fits(s.dev, start, n)
    ensures HitFresh(s, start, n)
  {
  }

  /** The guard that rwb_read does not test: the window it would load reaches a block that
      is still dirty after the flush, and whose new contents differ from the media. */
  ghost predicate LoadsStale(s: Rwb, start: int, n: nat)
    requires Healthy(s) && Fits(s.dev, start, n)
  {
    s.cfg.ReadsAhead() && s.rh.Hit(start, n) < n &&
    var t := FlushForRead(s, start, n);
    var w := WindowAfter(t.dev, s.cfg.rhMax, s.rh, start, n);
    exists b :: w.Has(b) && t.wr.Has(b) && t.wr.At(b) != t.dev.media[b]
  }

  /** A window freshly loaded is coherent unless it holds a dirty block that differs from the media. */
  lemma ReloadedCoherentIff(s: Rwb, start: int)
    requires Healthy(s) && 0 <= start <= |s.dev.media|
    ensures var w := Reloaded(s.dev, s.cfg.rhMax, start);
            Coherent(s.(rh := w)) <==> forall b | w.Has(b) && s.wr.Has(b) :: s.wr.At(b) == s.dev.media[b]
  {
    var w := Reloaded(s.dev, s.cfg.rhMax, start);
    assert forall b | w.Has(b) :: w.At(b) == s.dev.media[b];
    assert forall b | 0 <= b < |s.dev.media| :: Logical(s)[b] == if s.wr.Has(b) then s.wr.At(b) else s.dev.media[b];
  }

  /** Exactly when a read keeps the caches coherent. */
  lemma ReadKeepsCoherenceIff(s: Rwb, start: int, n: nat)
    requires Healthy(s) && RhSized(s.cfg) && Fits(s.dev, start, n) && Coherent(s)
    ensures Coherent(Read(s, start, n).s) <==> !LoadsStale(s, start, n)
  {
    hide ReadLoop, CeilDiv, FlushForRead;
    var t, k := FlushForRead(s, start, n), s.rh.Hit(start, n);
    FlushedForRead(s, start, n);
    if s.cfg.rhBuilt {
      ReadAhead(s, start, n);
      if k < n {
        ReloadedCoherentIff(t, LastReload(start + k, n - k, s.cfg.rhMax));
      }
    }
  }
}
