/** The driver object of os/drivers/rwbuffer.c: two block arrays and their bookkeeping,
    updated in place. Every method is proved to take the step of RwModel. */
module RwBuffer {
  import opened Platform
  import opened RwModel
  import RwCoherence
  import opened RwRuns

  class Buffer {
    const cfg: Config
    var dev: Device                 // reached through the wrflush and rhreload callbacks
    const wrbuffer: array<Block>
    var wrnblocks: nat
    var wrblockstart: int
    var wrexpectedblock: int
    const rhbuffer: array<Block>
    var rhnblocks: nat
    var rhblockstart: int

    ghost predicate Valid()
      reads this, wrbuffer, rhbuffer
    {
      && wrbuffer != rhbuffer
      && wrbuffer.Length == cfg.wrMax && rhbuffer.Length == cfg.rhMax
      && wrnblocks <= cfg.wrMax && rhnblocks <= cfg.rhMax
    }

    ghost function View(): Rwb
      reads this, wrbuffer, rhbuffer
      requires Valid()
    {
      Rwb(cfg, dev, Extent(wrblockstart, wrbuffer[..wrnblocks]), wrexpectedblock,
          Extent(rhblockstart, rhbuffer[..rhnblocks]))
    }

    constructor (cfg: Config, dev: Device)
      ensures Valid() && View() == Initial(cfg, dev)
      ensures fresh(wrbuffer) && fresh(rhbuffer)
    {
      this.cfg, this.dev := cfg, dev;
      wrbuffer := new Block[cfg.wrMax];
      rhbuffer := new Block[cfg.rhMax];
      wrnblocks, wrblockstart, wrexpectedblock := 0, -1, -1;
      rhnblocks, rhblockstart := 0, -1;
    }

    /** rwb_initialize: each buffer of a size above zero is allocated; `wrFits` and `rhFits` say whether
        the heap can give it. */
    static method Initialize(cfg: Config, dev: Device, wrFits: bool, rhFits: bool) returns (ret: int, rwb: Buffer?)
      ensures ret == if (cfg.Writes() && !wrFits) || (cfg.ReadsAhead() && !rhFits) then -ENOMEM else 0
      ensures rwb != null <==> ret == 0
      ensures rwb != null ==> fresh(rwb) && fresh(rwb.wrbuffer) && fresh(rwb.rhbuffer)
      ensures rwb != null ==> rwb.Valid() && rwb.View() == Initial(cfg, dev)
    {
      if cfg.wrBuilt && cfg.wrMax > 0 && !wrFits {
        return -ENOMEM, null;
      }
      if cfg.rhBuilt && cfg.rhMax > 0 && !rhFits {
        return -ENOMEM, null;
      }
      rwb := new Buffer(cfg, dev);
      ret := 0;
    }

    method ResetWrBuffer()
      requires Valid()
      modifies this
      ensures Valid() && View() == ResetWr(old(View()), dev) && dev == old(dev)
    {
      wrnblocks := 0;
      wrblockstart := -1;
      wrexpectedblock := -1;
    }

    method ResetRhBuffer()
      requires Valid()
      modifies this
      ensures Valid() && View() == old(View()).(rh := Nothing)
    {
      rhnblocks := 0;
      rhblockstart := -1;
    }

    /** rwb_wrflush, also the body of the write-behind timer. */
    method Flush()
      requires Valid()
      modifies this
      ensures Valid() && View() == WrFlush(old(View()))
    {
      if wrnblocks > 0 {
        dev := dev.Write(wrblockstart, wrbuffer[..wrnblocks]).0;
        ResetWrBuffer();
      }
    }

    method AddToBuffer(startblock: int, src: seq<Block>)
      requires Valid() && wrnblocks + |src| <= cfg.wrMax
      modifies this, wrbuffer
      ensures Valid() && View() == Append(old(View()), startblock, src)
    {
      if wrnblocks == 0 {
        wrblockstart := startblock;
      }
      forall i | 0 <= i < |src| {
        wrbuffer[wrnblocks + i] := src[i];
      }
      assert wrbuffer[..wrnblocks + |src|] == old(wrbuffer[..wrnblocks]) + src;
      wrnblocks := wrnblocks + |src|;
      wrexpectedblock := wrblockstart + wrnblocks;
    }

    /** rwb_writebuffer. */
    method WriteBuffered(startblock: int, src: seq<Block>) returns (ret: int)
      requires Valid() && |src| <= cfg.wrMax
      modifies this, wrbuffer
      ensures Valid() && (View(), ret) == WriteBuffer(old(View()), startblock, src)
    {
      if (startblock != wrexpectedblock && wrnblocks > 0) || wrnblocks + |src| > cfg.wrMax {
        var (d, r) := dev.Write(wrblockstart, wrbuffer[..wrnblocks]);
        dev := d;
        if r < 0 {
          return r;
        }
        ResetWrBuffer();
      }
      AddToBuffer(startblock, src);
      return |src|;
    }

    /** rwb_write. */
    method WriteBlocks(startblock: int, src: seq<Block>) returns (ret: int)
      requires Valid()
      modifies this, wrbuffer
      ensures Valid() && (View(), ret) == Write(old(View()), startblock, src)
    {
      if cfg.rhBuilt && cfg.rhMax > 0 {
        if Overlap(rhblockstart, rhnblocks, startblock, |src|) {
          ResetRhBuffer();
        }
      }
      assert View() == DropWindow(old(View()), startblock, |src|);
      if !cfg.wrBuilt {
        var (d, r) := dev.Write(startblock, src);
        dev := d;
        return r;
      }
      if cfg.wrMax > 0 {
        if |src| > cfg.wrMax {
          Flush();
          var (d, r) := dev.Write(startblock, src);
          dev := d;
          return r;
        } else {
          ret := WriteBuffered(startblock, src);
          return;
        }
      }
      return 0;
    }

    /** rwb_rhreload. */
    method Reload(startblock: int) returns (ret: int)
      requires Valid()
      modifies this, rhbuffer
      ensures Valid()
      ensures var (w, r) := RhReload(dev, cfg.rhMax, old(View()).rh, startblock);
              ret == r && View() == old(View()).(rh := w)
      ensures dev == old(dev)
    {
      if startblock < 0 || startblock >= |dev.media| {
        return -ESPIPE;
      }
      var endblock := startblock + cfg.rhMax;
      if endblock > |dev.media| {
        endblock := |dev.media|;
      }
      ResetRhBuffer();
      var (data, r) := dev.Read(startblock, endblock - startblock);
      if r == endblock - startblock {
        forall i | 0 <= i < |data| {
          rhbuffer[i] := data[i];
        }
        assert rhbuffer[..|data|] == data;
        rhnblocks := |data|;
        rhblockstart := startblock;
        return |data|;
      }
      return -EIO;
    }

    /** rwb_bufferread: copy blocks from the window to the caller's buffer at `at`. */
    method BufferRead(startblock: int, n: nat, rdbuffer: array<Block>, at: nat)
      requires Valid() && rdbuffer != rhbuffer && rdbuffer != wrbuffer
      requires View().rh.Hit(startblock, n) == n && at + n <= rdbuffer.Length
      modifies rdbuffer
      ensures rdbuffer[..at + n] == old(rdbuffer[..at]) + View().rh.Served(startblock, n)
    {
      var blockoffset := startblock - rhblockstart;
      forall i | 0 <= i < n {
        rdbuffer[at + i] := rhbuffer[blockoffset + i];
      }
      assert n > 0 ==> View().rh.Served(startblock, n) == rhbuffer[blockoffset..blockoffset + n];
    }

    /** One pass of the loop of rwb_read over the present window. */
    method ServeFromWindow(start: int, remaining: nat, rdbuffer: array<Block>, done: nat) returns (k: nat)
      requires Valid() && rdbuffer != rhbuffer && rdbuffer != wrbuffer && done + remaining <= rdbuffer.Length
      modifies rdbuffer
      ensures k == View().rh.Hit(start, remaining)
      ensures rdbuffer[..done + k] == old(rdbuffer[..done]) + View().rh.Served(start, remaining)
    {
      k := 0;
      if rhnblocks > 0 {
        var bufferend := rhblockstart + rhnblocks;
        if start >= rhblockstart && start < bufferend {
          k := bufferend - start;
          if k > remaining {
            k := remaining;
          }
          BufferRead(start, k, rdbuffer, done);
        }
      }
    }

    /** The loop of rwb_read. */
    method ReadThrough(startblock: int, nblocks: nat, rdbuffer: array<Block>) returns (ret: int)
      requires Valid() && cfg.rhMax > 0
      requires rdbuffer != rhbuffer && rdbuffer != wrbuffer && nblocks <= rdbuffer.Length
      modifies this, rhbuffer, rdbuffer
      ensures Valid()
      ensures var r := ReadLoop(old(dev), cfg.rhMax, old(View()).rh, startblock, nblocks);
              View() == old(View()).(rh := r.rh) && ret == (if r.ret < 0 then r.ret else nblocks)
              && |r.data| <= nblocks && rdbuffer[..|r.data|] == r.data
    {
      hide ReadLoop, RhReload, RwCoherence.Resumes;
      ghost var total := ReadLoop(dev, cfg.rhMax, View().rh, startblock, nblocks);
      var start, remaining: nat, done: nat := startblock, nblocks, 0;
      RwCoherence.ResumesAtStart(total);
      assert rdbuffer[..0] == [];
      while remaining > 0
        invariant Valid() && remaining + done == nblocks && View() == old(View()).(rh := View().rh)
        invariant RwCoherence.Resumes(total, rdbuffer[..done], ReadLoop(dev, cfg.rhMax, View().rh, start, remaining))
        decreases remaining, if View().rh.Has(start) then 0 else 1
      {
        ghost var rh, before := View().rh, rdbuffer[..done];
        var k := ServeFromWindow(start, remaining, rdbuffer, done);
        done := done + k;
        if remaining - k > 0 {
          RwCoherence.ResumesAfterReload(dev, cfg.rhMax, rh, start, remaining, total, before);
          var r := Reload(start + k);
          if r < 0 {
            return r;
          }
        } else {
          RwCoherence.ResumesAtEnd(dev, cfg.rhMax, rh, start, remaining, total, before);
        }
        start, remaining := start + k, remaining - k;
      }
      RwCoherence.ResumesAtEnd(dev, cfg.rhMax, View().rh, start, 0, total, rdbuffer[..done]);
      return nblocks;
    }

    /** rwb_read: the blocks delivered are the front of `rdbuffer`. */
    method ReadBlocks(startblock: int, nblocks: nat, rdbuffer: array<Block>) returns (ret: int)
      requires Valid()
      requires rdbuffer != rhbuffer && rdbuffer != wrbuffer && nblocks <= rdbuffer.Length
      modifies this, rhbuffer, rdbuffer
      ensures Valid()
      ensures var r := Read(old(View()), startblock, nblocks);
              View() == r.s && ret == r.ret && |r.data| <= nblocks && rdbuffer[..|r.data|] == r.data
    {
      if cfg.wrBuilt && cfg.wrMax > 0 {
        if Overlap(wrblockstart, wrnblocks, startblock, nblocks) {
          Flush();
        }
      }
      assert View() == FlushForRead(old(View()), startblock, nblocks);
      if !cfg.rhBuilt {
        var (data, r) := dev.Read(startblock, nblocks);
        forall i | 0 <= i < |data| {
          rdbuffer[i] := data[i];
        }
        assert rdbuffer[..|data|] == data;
        return r;
      }
      if cfg.rhMax > 0 {
        ret := ReadThrough(startblock, nblocks, rdbuffer);
        return;
      }
      return 0;
    }

    /** A whole run of calls and timer ticks on the driver object is the run of the model, so what
        RwRuns proves of every run holds of this code. */
    method Execute(ops: seq<Op>) returns (seen: seq<Seen>)
      requires Valid()
      modifies this, wrbuffer, rhbuffer
      ensures Valid() && (View(), seen) == Run(old(View()), ops)
    {
      hide Step;
      seen := [];
      var i := 0;
      RunNothing(View());
      assert ops[..0] == [];
      while i < |ops|
        invariant i <= |ops| && Valid() && (View(), seen) == Run(old(View()), ops[..i])
      {
        RunSnoc(old(View()), ops[..i], ops[i]);
        assert ops[..i + 1] == ops[..i] + [ops[i]];
        var s := ExecuteOne(ops[i]);
        seen := seen + [s];
        i := i + 1;
      }
      assert ops[..i] == ops;
    }

    method ExecuteOne(op: Op) returns (seen: Seen)
      requires Valid()
      modifies this, wrbuffer, rhbuffer
      ensures Valid() && (View(), seen) == Step(old(View()), op)
    {
      hide Read, Write, WrFlush;
      match op
      case WriteOp(start, data) =>
        var ret := WriteBlocks(start, data);
        seen := Seen(ret, []);
      case ReadOp(start, n) =>
        RwCoherence.ReadLength(View(), start, n);
        var rdbuffer := new Block[n];
        var ret := ReadBlocks(start, n, rdbuffer);
        seen := Seen(ret, if ret < 0 then [] else rdbuffer[..ret]);
      case Timeout =>
        Flush();
        seen := Seen(0, []);
    }
  }
}
