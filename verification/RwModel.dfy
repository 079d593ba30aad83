/** The block cache of os/drivers/rwbuffer.c as step functions on values: a block
    device, a coalescing write buffer in front of its writes and a read-ahead
    window in front of its reads. */
module RwModel {

  import opened Platform

  type Block = seq<Byte>

  /** One block handed to the device's write callback. */
  datatype BlockWrite = BlockWrite(index: int, data: Block)

  /** The block device behind the callbacks. A transfer that leaves the media or
      touches a bad block fails as a whole; `log` lists the blocks written, oldest first. */
  datatype Device = Device(media: seq<Block>, bad: set<int>, log: seq<BlockWrite>) {
    predicate Accepts(start: int, n: nat) {
      0 <= start && start + n <= |media| && forall b | start <= b < start + n :: b !in bad
    }

    function Write(start: int, data: seq<Block>): (Device, int) {
      if Accepts(start, |data|)
      then (Device(Overlay(media, start, data), bad, log + Tagged(start, data)), |data|)
      else (this, -EIO)
    }

    function Read(start: int, n: nat): (seq<Block>, int) {
      if Accepts(start, n) then (media[start..start + n], n) else ([], -EIO)
    }
  }

  /** `base` with `data` laid over it from block `start` on. */
  function Overlay(base: seq<Block>, start: int, data: seq<Block>): seq<Block> {
    seq(|base|, i requires 0 <= i < |base| =>
      if start <= i < start + |data| then data[i - start] else base[i])
  }

  function Tagged(start: int, data: seq<Block>): seq<BlockWrite> {
    seq(|data|, i requires 0 <= i < |data| => BlockWrite(start + i, data[i]))
  }

  /** A run of cached blocks: `data` are the contents of the blocks from `start` on. */
  datatype Extent = Extent(start: int, data: seq<Block>) {
    predicate Has(b: int) { start <= b < start + |data| }

    function At(b: int): Block
      requires Has(b)
    {
      data[b - start]
    }

    /** How many of `n` blocks from `first` on this extent can serve. */
    function Hit(first: int, n: nat): (k: nat)
      ensures k <= n
      ensures k > 0 ==> Has(first) && Has(first + k - 1)
      ensures Has(first) && n > 0 ==> k > 0
    {
      if Has(first) then
        var avail := start + |data| - first;
        if avail > n then n else avail
      else 0
    }

    function Served(first: int, n: nat): (r: seq<Block>)
      ensures |r| == Hit(first, n)
    {
      if Has(first) then data[first - start..first - start + Hit(first, n)] else []
    }
  }

  const Nothing := Extent(-1, [])

  /** Whether each cache is compiled in, and its size in blocks. */
  datatype Config = Config(wrBuilt: bool, wrMax: nat, rhBuilt: bool, rhMax: nat) {
    predicate Writes() { wrBuilt && wrMax > 0 }
    predicate ReadsAhead() { rhBuilt && rhMax > 0 }
  }

  /** The driver state: `wr` are the buffered (dirty) blocks, `rh` the read-ahead window. */
  datatype Rwb = Rwb(cfg: Config, dev: Device, wr: Extent, wrExpected: int, rh: Extent)

  function Initial(cfg: Config, dev: Device): Rwb {
    Rwb(cfg, dev, Nothing, -1, Nothing)
  }

  predicate Overlap(start1: int, n1: nat, start2: int, n2: nat) {
    !(start1 + n1 < start2 || start1 > start2 + n2)
  }

  function ResetWr(s: Rwb, dev: Device): Rwb {
    Rwb(s.cfg, dev, Nothing, -1, s.rh)
  }

  /** rwb_wrflush: the outcome of the device write is only logged, the buffer is emptied anyway. */
  function WrFlush(s: Rwb): Rwb {
    if |s.wr.data| > 0 then ResetWr(s, s.dev.Write(s.wr.start, s.wr.data).0) else s
  }

  predicate MustFlush(s: Rwb, start: int, n: nat) {
    (start != s.wrExpected && |s.wr.data| > 0) || |s.wr.data| + n > s.cfg.wrMax
  }

  function Append(s: Rwb, start: int, data: seq<Block>): Rwb {
    var first := if |s.wr.data| == 0 then start else s.wr.start;
    Rwb(s.cfg, s.dev, Extent(first, s.wr.data + data), first + |s.wr.data| + |data|, s.rh)
  }

  /** rwb_writebuffer: a failed flush leaves the buffer as it was. */
  function WriteBuffer(s: Rwb, start: int, data: seq<Block>): (Rwb, int) {
    if MustFlush(s, start, |data|) then
      var (dev, ret) := s.dev.Write(s.wr.start, s.wr.data);
      if ret < 0 then (s.(dev := dev), ret)
      else (Append(ResetWr(s, dev), start, data), |data|)
    else (Append(s, start, data), |data|)
  }

  function DropWindow(s: Rwb, start: int, n: nat): Rwb {
    if s.cfg.ReadsAhead() && Overlap(s.rh.start, |s.rh.data|, start, n) then s.(rh := Nothing) else s
  }

  /** rwb_write. A write buffer compiled in with zero blocks takes the `else return ret`
      branch: nothing is written and the result is OK. */
  function Write(s: Rwb, start: int, data: seq<Block>): (Rwb, int) {
    var s1 := DropWindow(s, start, |data|);
    if !s.cfg.wrBuilt then
      var (dev, ret) := s1.dev.Write(start, data);
      (s1.(dev := dev), ret)
    else if s.cfg.wrMax == 0 then (s1, 0)
    else if |data| > s.cfg.wrMax then
      var s2 := WrFlush(s1);
      var (dev, ret) := s2.dev.Write(start, data);
      (s2.(dev := dev), ret)
    else WriteBuffer(s1, start, data)
  }

  function WindowEnd(dev: Device, rhMax: nat, start: int): int {
    if start + rhMax > |dev.media| then |dev.media| else start + rhMax
  }

  /** rwb_rhreload: refill the window from `start`, cut off at the end of the media. The first
      test compares unsigned numbers, so a negative block also counts as past the end. */
  function RhReload(dev: Device, rhMax: nat, rh: Extent, start: int): (r: (Extent, int))
    ensures r.1 >= 0 && rhMax > 0 ==> r.0.Has(start)
  {
    if start < 0 || start >= |dev.media| then (rh, -ESPIPE)
    else
      var n := WindowEnd(dev, rhMax, start) - start;
      var (data, ret) := dev.Read(start, n);
      if ret == n then (Extent(start, data), n) else (Nothing, -EIO)
  }

  /** What the loop of rwb_read leaves behind: the window, the status, the blocks copied
      to the caller, and how often the window was reloaded. */
  datatype LoopOut = LoopOut(rh: Extent, ret: int, data: seq<Block>, reloads: nat) {
    function After(blocks: seq<Block>): LoopOut {
      LoopOut(rh, ret, blocks + data, reloads + 1)
    }
  }

  /** The loop of rwb_read: serve what the window has, then refill it, until done. */
  function ReadLoop(dev: Device, rhMax: nat, rh: Extent, start: int, remaining: nat): LoopOut
    requires rhMax > 0
    decreases remaining, if rh.Has(start) then 0 else 1
  {
    var k, served := rh.Hit(start, remaining), rh.Served(start, remaining);
    if remaining == k then LoopOut(rh, 0, served, 0)
    else
      var (rh', ret) := RhReload(dev, rhMax, rh, start + k);
      if ret < 0 then LoopOut(rh', ret, served, 1)
      else ReadLoop(dev, rhMax, rh', start + k, remaining - k).After(served)
  }

  function FlushForRead(s: Rwb, start: int, n: nat): Rwb {
    if s.cfg.Writes() && Overlap(s.wr.start, |s.wr.data|, start, n) then WrFlush(s) else s
  }

  datatype ReadOut = ReadOut(s: Rwb, ret: int, data: seq<Block>, reloads: nat)

  /** rwb_read. A read-ahead cache compiled in with zero blocks takes the `else return ret`
      branch: nothing is read and the result is OK. */
  function Read(s: Rwb, start: int, n: nat): ReadOut {
    var s1 := FlushForRead(s, start, n);
    if !s.cfg.rhBuilt then
      var (data, ret) := s1.dev.Read(start, n);
      ReadOut(s1, ret, data, 0)
    else if s.cfg.rhMax == 0 then ReadOut(s1, 0, [], 0)
    else
      var r := ReadLoop(s1.dev, s.cfg.rhMax, s1.rh, start, n);
      ReadOut(s1.(rh := r.rh), if r.ret < 0 then r.ret else n, r.data, r.reloads)
  }
}
