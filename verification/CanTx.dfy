/** The transmit side of os/drivers/can.c: one ring with three indices, shared by the writer
    and the completion interrupt. The hardware may complete a message while dev_send is still
    running, so can_xmit, dev_send and can_txdone call one another. */
module CanTx {
  import opened Platform
  import opened CanCodec
  import Ring

  /** How a wait for room ends; `StillWaiting` is a run that stops while the writer sleeps on tx_sem,
      `WouldBlock` a full ring met without blocking. */
  datatype Wait = Woken | Interrupted | WaitError(errno: Errno) | StillWaiting | WouldBlock

  type Errno = e: int | e > 0 witness 1

  /** How a call ends: with its return value or asleep in a full ring; `Skipped` did not happen. */
  datatype Outcome = Returned(ret: int) | Asleep | Skipped

  /** What happens to the driver: a write of whole messages and a tail shorter than a header, or
      an interrupt reporting a completed transmission. */
  datatype Action = WriteCall(msgs: seq<Msg>, tail: seq<Byte>, nonblock: bool) | Completion

  /** The messages a call that stored `k` of them put into the ring. */
  function Stored(a: Action, k: nat): seq<Msg>
    requires a.WriteCall? ==> k <= |a.msgs|
  {
    if a.WriteCall? then a.msgs[..k] else []
  }

  /** What a call says about the messages it stored: a count returned is the size of exactly those
      messages, all of them if the call may block; -EAGAIN stored none. */
  predicate Reports(a: Action, r: Outcome, k: nat) {
    a.WriteCall? ==>
      && k <= |a.msgs| && (r.Skipped? ==> k == 0)
      && (r.Returned? && r.ret >= 0 ==> r.ret == |EncodeAll(a.msgs[..k])| && (k == |a.msgs| || a.nonblock))
      && (a.nonblock ==> !r.Asleep? && (r.Returned? && r.ret < 0 ==> r.ret == -EAGAIN && k == 0))
  }

  /** Not a write without blocking that was cut short. */
  predicate InFull(a: Action, r: Outcome, k: nat) {
    a.WriteCall? && a.nonblock ==> r.Skipped? || k == |a.msgs|
  }

  ghost predicate AllInFull(script: seq<Action>, results: seq<Outcome>, counts: seq<nat>)
    requires |results| == |script| == |counts|
  {
    forall i | 0 <= i < |script| :: InFull(script[i], results[i], counts[i])
  }

  /** An earlier writer has been left asleep. */
  ghost predicate Sleeper(results: seq<Outcome>, i: nat) {
    i <= |results| && exists j :: 0 <= j < i && results[j].Asleep?
  }

  /** A write does not happen only while an earlier writer sleeps. */
  ghost predicate Excused(script: seq<Action>, results: seq<Outcome>)
    requires |results| == |script|
  {
    forall i | 0 <= i < |script| && script[i].WriteCall? && results[i].Skipped? :: Sleeper(results, i)
  }

  /** Every completion found a message in flight or an empty ring. */
  ghost predicate Smooth(script: seq<Action>, results: seq<Outcome>)
    requires |results| == |script|
  {
    forall i | 0 <= i < |script| && script[i].Completion? :: results[i].Returned?
  }

  lemma ScriptMore(script: seq<Action>, results: seq<Outcome>, counts: seq<nat>, a: Action, r: Outcome, k: nat)
    requires |results| == |script| == |counts|
    ensures AllReport(script, results, counts) && Reports(a, r, k) ==>
              AllReport(script + [a], results + [r], counts + [k])
    ensures AllInFull(script + [a], results + [r], counts + [k]) ==>
              AllInFull(script, results, counts) && InFull(a, r, k)
    ensures Smooth(script, results) && (a.Completion? ==> r.Returned?) ==> Smooth(script + [a], results + [r])
    ensures Sleeper(results, |results|) || r.Asleep? ==> Sleeper(results + [r], |results| + 1)
    ensures Excused(script, results) && (a.WriteCall? && r.Skipped? ==> Sleeper(results, |results|)) ==>
              Excused(script + [a], results + [r])
  {
    var n := |script|;
    hide Reports, InFull;
    if AllInFull(script + [a], results + [r], counts + [k]) {
      assert InFull((script + [a])[n], (results + [r])[n], (counts + [k])[n]);
      forall i | 0 <= i < n ensures InFull(script[i], results[i], counts[i]) {
        assert InFull((script + [a])[i], (results + [r])[i], (counts + [k])[i]);
      }
    }
    forall i: nat | i <= n && Sleeper(results, i) ensures Sleeper(results + [r], i) {
      SleeperStays(results, r, i);
    }
    if r.Asleep? {
      assert (results + [r])[n].Asleep?;
    } else if Sleeper(results, n) {
      var j :| 0 <= j < n && results[j].Asleep?;
      assert (results + [r])[j].Asleep?;
    }
  }

  lemma SleeperStays(results: seq<Outcome>, r: Outcome, i: nat)
    requires Sleeper(results, i)
    ensures Sleeper(results + [r], i)
  {
    var j :| 0 <= j < i && results[j].Asleep?;
    assert (results + [r])[j].Asleep?;
  }

  ghost predicate AllReport(script: seq<Action>, results: seq<Outcome>, counts: seq<nat>) {
    |results| == |script| == |counts| && forall i | 0 <= i < |script| :: Reports(script[i], results[i], counts[i])
  }

  ghost predicate Bounded(script: seq<Action>, counts: seq<nat>)
    requires |script| == |counts|
  {
    forall i | 0 <= i < |script| && script[i].WriteCall? :: counts[i] <= |script[i].msgs|
  }

  /** The messages accepted over a script, in order. */
  ghost function Accepted(script: seq<Action>, counts: seq<nat>): seq<Msg>
    requires |script| == |counts| && Bounded(script, counts)
  {
    if script == [] then []
    else Accepted(script[..|script| - 1], counts[..|script| - 1]) + Stored(script[|script| - 1], counts[|script| - 1])
  }

  lemma AcceptedMore(script: seq<Action>, counts: seq<nat>, a: Action, k: nat)
    requires |script| == |counts| && (a.WriteCall? ==> k <= |a.msgs|) && Bounded(script, counts)
    ensures Bounded(script + [a], counts + [k])
    ensures Accepted(script + [a], counts + [k]) == Accepted(script, counts) + Stored(a, k)
  {
    assert (script + [a])[..|script|] == script && (counts + [k])[..|script|] == counts;
  }

  lemma StartOfScript()
    ensures Bounded([], []) && Accepted([], []) == [] && AllReport([], [], []) && Excused([], []) && Smooth([], [])
  {
  }

  class TxFifo {
    const txBuffer: array<Msg>
    var txHead: nat                 // messages up to here have completed
    var txQueue: nat                // messages up to here have been given to the hardware
    var txTail: nat                 // messages up to here have been written
    var nTxWaiters: nat
    var txSem: nat

    ghost var written: seq<Msg>     // every message ever put into the ring
    ghost var sent: seq<Msg>        // every message ever passed to dev_send
    ghost var completed: nat        // how many of them have completed
    ghost var refusals: nat         // how often the hardware was not ready, failed to send, or denied being idle

    ghost predicate Counts()
      reads this`txHead, this`txTail, this`written, this`sent, this`completed
    {
      && txBuffer.Length > 0
      && completed <= |sent| <= |written| < completed + txBuffer.Length
      && sent == written[..|sent|]
      && txHead == completed % txBuffer.Length && txTail == |written| % txBuffer.Length
    }

    ghost predicate Kept()
      reads this`written, this`completed, txBuffer
    {
      txBuffer.Length > 0 &&
      forall k | completed <= k < |written| :: txBuffer[k % txBuffer.Length] == written[k]
    }

    /** Head, queue and tail split the written messages into completed, in flight and waiting;
        what was sent is a prefix of what was written: in order, each message once. */
    ghost predicate Valid()
      reads this`txHead, this`txTail, this`written, this`sent, this`completed, this`txQueue, txBuffer
    {
      Counts() && Kept() && txQueue == |sent| % txBuffer.Length
    }

    /** Inside can_xmit, between the step of tx_queue and dev_send. */
    ghost predicate AboutToSend()
      reads this, txBuffer
    {
      Counts() && Kept() && |sent| < |written| && txQueue == (|sent| + 1) % txBuffer.Length
    }

    ghost function Unsent(): int
      reads this
    {
      |written| - |sent|
    }

    constructor (fifoSize: nat)
      requires fifoSize > 0
      ensures Valid() && fresh(txBuffer) && txBuffer.Length == fifoSize && written == []
      ensures nTxWaiters == 0 && txSem == 0
    {
      txBuffer := new Msg[fifoSize];
      txHead, txQueue, txTail, nTxWaiters, txSem := 0, 0, 0, 0, 0;
      written, sent, completed, refusals := [], [], 0, 0;
    }

    /** Comparing indices compares counters. */
    lemma Indices()
      requires Valid()
      ensures txHead == txTail <==> completed == |written|
      ensures txQueue == txTail <==> |sent| == |written|
      ensures txHead == txQueue <==> completed == |sent|
      ensures txHead < txBuffer.Length && txQueue < txBuffer.Length && txTail < txBuffer.Length
    {
      Ring.SameSlot(completed, |written|, txBuffer.Length);
      Ring.SameSlot(|sent|, |written|, txBuffer.Length);
      Ring.SameSlot(completed, |sent|, txBuffer.Length);
    }

    lemma CountsMean()
      requires Valid()
      ensures completed <= |sent| <= |written| < completed + txBuffer.Length && sent == written[..|sent|]
    {
    }

    /** What xmit, send and completion leave alone, and how far they may go. */
    twostate predicate Progress()
      reads this
    {
      && written == old(written) && txTail == old(txTail) && nTxWaiters == old(nTxWaiters)
      && old(|sent|) <= |sent| && old(completed) <= completed && old(txSem) <= txSem
      && (completed == old(completed) || nTxWaiters == 0 ==> txSem == old(txSem)) && old(refusals) <= refusals
    }

    /** Everything written has been handed over, unless the hardware refused in the meantime. */
    twostate predicate HandedOver()
      reads this
    {
      |sent| == |written| || refusals > old(refusals)
    }

    /** co_txready. */
    method DevTxReady() returns (ready: bool)
      modifies this`refusals
      ensures refusals == if ready then old(refusals) else old(refusals) + 1
    {
      ready := *;
      if !ready {
        refusals := refusals + 1;
      }
    }

    /** Messages wait although the hardware has nothing to do. */
    ghost predicate Stranded()
      reads this
    {
      completed == |sent| < |written|
    }

    /** Nothing waits, or a message in flight will bring its completion, or the hardware has refused since
        `r0` was counted. */
    ghost predicate Underway(r0: nat)
      reads this
    {
      !Stranded() || refusals > r0
    }

    /** `idle` is a true answer about the hardware, unless it has refused since. */
    ghost predicate Knows(idle: bool, r0: nat)
      reads this
    {
      idle || completed < |sent| || refusals > r0
    }

    /** co_txempty: the hardware says whether it is idle. */
    method DevTxEmpty(ghost r0: nat) returns (empty: bool)
      requires Valid() && r0 <= refusals
      modifies this`refusals
      ensures old(refusals) <= refusals && Knows(empty, r0)
    {
      empty := *;
      if !empty && completed == |sent| {
        refusals := refusals + 1;
      }
    }

    /** co_send: the hardware takes the message and may complete any messages it holds before
        it returns, successfully or not. */
    method DevSend(msg: Msg) returns (ret: int)
      requires AboutToSend() && msg == written[|sent|]
      modifies this
      ensures Valid() && Progress() && |sent| > old(|sent|)
      ensures ret != 0 ==> refusals > old(refusals)
      decreases Unsent() - 1, 2
    {
      sent := sent + [msg];
      assert sent == written[..|sent|];
      Indices();
      var again: bool := *;
      while again && txHead != txQueue
        invariant Valid() && Progress() && |sent| > old(|sent|)
        invariant txHead != txQueue <==> completed < |sent|
        decreases |written| - completed
      {
        var _ := TxDone();
        Indices();
        again := *;
      }
      ret := *;
      if ret != 0 {
        refusals := refusals + 1;
      }
    }

    /** can_xmit: hand over messages while the hardware is ready. */
    method Xmit() returns (ret: int)
      requires Valid()
      modifies this
      ensures Valid() && Progress() && HandedOver()
      ensures old(completed == |written|) ==> ret == -EIO && sent == old(sent)
      decreases Unsent(), 0
    {
      Indices();
      if txHead == txTail {
        assert txQueue == txHead;
        return -EIO;
      }
      ret := -EBUSY;
      while txQueue != txTail
        invariant Valid() && Progress()
        invariant txQueue == txTail <==> |sent| == |written|
        decreases Unsent()
      {
        var ready := DevTxReady();
        if !ready {
          break;
        }
        Indices();
        assert txHead != txTail;
        ret := SendNext();
        if ret != 0 {
          break;
        }
        Indices();
      }
    }

    /** The body of the loop of can_xmit: step tx_queue, then send. */
    method SendNext() returns (ret: int)
      requires Valid() && |sent| < |written|
      modifies this
      ensures Valid() && Progress() && |sent| > old(|sent|)
      ensures ret != 0 ==> refusals > old(refusals)
      decreases Unsent() - 1, 3
    {
      Indices();
      var tmpndx := txQueue;
      Ring.Next(|sent|, txBuffer.Length);
      txQueue := txQueue + 1;
      if txQueue >= txBuffer.Length {
        txQueue := 0;
      }
      assert txBuffer[tmpndx] == written[|sent|];
      ret := DevSend(txBuffer[tmpndx]);
    }

    /** can_txdone, called for a message in flight or spuriously on an empty ring. */
    method TxDone() returns (ret: int)
      requires Valid() && (completed < |sent| || completed == |written|)
      modifies this
      ensures Valid() && Progress()
      ensures old(completed == |written|) ==> ret == -ENOENT && completed == old(completed) && sent == old(sent)
      ensures old(completed < |sent|) ==>
                ret == 0 && completed > old(completed) && HandedOver() && (nTxWaiters > 0 ==> txSem > old(txSem))
      decreases Unsent(), 1
    {
      ret := -ENOENT;
      Indices();
      if txHead != txTail {
        assert txHead != txQueue;
        Complete();
        var _ := Xmit();
        if nTxWaiters > 0 {
          txSem := txSem + 1;
        }
        ret := 0;
      }
    }

    method Complete()
      requires Valid() && completed < |sent|
      modifies this`txHead, this`completed
      ensures Valid() && completed == old(completed) + 1
    {
      Ring.Next(completed, txBuffer.Length);
      txHead := txHead + 1;
      if txHead >= txBuffer.Length {
        txHead := 0;
      }
      completed := completed + 1;
    }

    /** As Progress, for waits that may also consume counts of tx_sem. */
    twostate predicate Waited()
      reads this
    {
      && written == old(written) && txTail == old(txTail)
      && old(|sent|) <= |sent| && old(completed) <= completed && old(refusals) <= refusals
    }

    /** Nothing happened while waiting, or the last completion handed over what was left. */
    twostate predicate Resumed()
      reads this
    {
      HandedOver() || (sent == old(sent) && completed == old(completed) && refusals == old(refusals))
    }

    /** A wake-up is paid for by a completion or by a count left over from earlier ones. */
    twostate predicate Nearer()
      reads this
    {
      completed > old(completed) || (completed == old(completed) && txSem < old(txSem))
    }

    /** sem_wait on tx_sem. Interrupts are taken while the writer sleeps. */
    method SemWait() returns (r: Wait)
      requires Valid()
      modifies this
      ensures Valid() && Waited() && Resumed() && nTxWaiters == old(nTxWaiters)
      ensures (if r.Woken? then Nearer() else txSem == 0) && !r.WouldBlock?
    {
      if txSem == 0 {
        Indices();
        var busy: bool := *;
        while busy && txHead != txQueue
          invariant Valid() && Waited() && Resumed() && nTxWaiters == old(nTxWaiters)
          invariant txHead != txQueue <==> completed < |sent|
          invariant txSem > 0 ==> completed > old(completed)
          decreases |written| - completed
        {
          var _ := TxDone();
          Indices();
          busy := *;
        }
        if txSem == 0 {
          r := *;
          if r.Woken? || r.WouldBlock? {
            r := StillWaiting;
          }
          return;
        }
      }
      txSem := txSem - 1;
      return Woken;
    }

    /** Who is still asleep is still counted. */
    twostate predicate Counted(r: Wait)
      reads this
    {
      nTxWaiters == if r.StillWaiting? then old(nTxWaiters) + 1 else old(nTxWaiters)
    }

    /** The `do` loop around sem_wait; a run may end while signals keep interrupting it. */
    method WaitOnce() returns (r: Wait)
      requires Valid() && nTxWaiters < 255
      modifies this
      ensures Valid() && Waited() && Resumed() && Counted(r) && !r.Interrupted? && !r.WouldBlock?
      ensures r.Woken? ==> Nearer()
    {
      hide Counts, Kept;
      var signals: nat := *;
      r := Interrupted;
      while r.Interrupted?
        invariant Valid() && Waited() && Resumed() && Counted(r) && !r.WouldBlock?
        invariant r.Woken? ==> Nearer()
        invariant r.Interrupted? ==> txSem == 0 || (completed == old(completed) && txSem == old(txSem))
        decreases signals, r.Interrupted?
      {
        assert nTxWaiters < 255;
        nTxWaiters := nTxWaiters + 1;
        r := SemWait();
        if r.StillWaiting? || (r.Interrupted? && signals == 0) {
          return StillWaiting;
        }
        nTxWaiters := nTxWaiters - 1;
        if r.Interrupted? {
          signals := signals - 1;
        }
      }
    }

    /** Whether the ring is full, as can_write tests it. */
    lemma FullMeans(nexttail: nat)
      requires Valid() && nexttail == if txTail + 1 >= txBuffer.Length then 0 else txTail + 1
      ensures nexttail == (|written| + 1) % txBuffer.Length
      ensures nexttail == txHead <==> |written| + 1 == completed + txBuffer.Length
    {
      Ring.Next(|written|, txBuffer.Length);
      Ring.Full(completed, |written| + 1, txBuffer.Length);
    }

    /** Start the hardware if it is idle. */
    method Kick(inactive: bool, ghost r0: nat)
      requires Valid() && r0 <= refusals && Knows(inactive, r0)
      modifies this
      ensures Valid() && Progress() && Underway(r0)
    {
      hide Kept;
      if inactive {
        var _ := Xmit();
      }
    }

    /** The wait of can_write for room in the ring; before it sleeps it starts idle hardware. */
    method WaitForRoom(nexttail: nat, nonblock: bool, idle: bool, ghost r0: nat) returns (r: Wait, inactive: bool)
      requires Valid() && nTxWaiters < 255 && nexttail == if txTail + 1 >= txBuffer.Length then 0 else txTail + 1
      requires r0 <= refusals && Knows(idle, r0)
      modifies this
      ensures Valid() && Waited() && Counted(r) && !r.Interrupted?
      ensures r.Woken? ==> |written| + 1 < completed + txBuffer.Length
      ensures if nonblock then r.Woken? || r.WouldBlock? else !r.WouldBlock?
      ensures r.WouldBlock? ==> |written| + 1 == completed + txBuffer.Length
      ensures if r.Woken? then Knows(inactive, r0) else r.WouldBlock? || Underway(r0)
      ensures nonblock ==> sent == old(sent) && completed == old(completed)
    {
      hide Counts, Kept;
      inactive := idle;
      FullMeans(nexttail);
      while nexttail == txHead
        invariant Valid() && Waited() && nTxWaiters == old(nTxWaiters) && Knows(inactive, r0)
        invariant nexttail == txHead <==> |written| + 1 == completed + txBuffer.Length
        invariant nonblock ==> sent == old(sent) && completed == old(completed)
        decreases |written| - completed, txSem
      {
        if nonblock {
          return WouldBlock, inactive;
        }
        CountsMean();
        Kick(inactive, r0);
        r := WaitOnce();
        CountsMean();
        if !r.Woken? {
          return;
        }
        FullMeans(nexttail);
        inactive := DevTxEmpty(r0);
      }
      CountsMean();
      r := Woken;
    }

    method Put(msg: Msg, nexttail: nat)
      requires Valid() && |written| + 1 < completed + txBuffer.Length && nexttail == (|written| + 1) % txBuffer.Length
      modifies this`txTail, this`written, txBuffer
      ensures Valid() && written == old(written) + [msg]
    {
      ghost var n := txBuffer.Length;
      forall k | completed <= k < |written| ensures k % n != |written| % n {
        Ring.SameSlot(k, |written|, n);
      }
      txBuffer[txTail] := msg;
      txTail := nexttail;
      written := written + [msg];
      assert sent == written[..|sent|];
    }

    /** One turn of the outer loop of can_write: wait for room, then store `msg`. */
    method Enqueue(msg: Msg, nonblock: bool, idle: bool, ghost r0: nat) returns (r: Wait, inactive: bool)
      requires Valid() && nTxWaiters < 255 && r0 <= refusals && Knows(idle, r0)
      modifies this, txBuffer
      ensures Valid() && Counted(r) && old(|sent|) <= |sent| && !r.Interrupted? && old(refusals) <= refusals
      ensures written == if r.Woken? then old(written) + [msg] else old(written)
      ensures if nonblock then r.Woken? || r.WouldBlock? else !r.WouldBlock?
      ensures r.WouldBlock? ==> |written| + 1 == completed + txBuffer.Length
      ensures if r.Woken? then Knows(inactive, r0) else r.WouldBlock? || Underway(r0)
      ensures nonblock ==> sent == old(sent) && completed == old(completed)
    {
      hide Counts, Kept;
      var nexttail := txTail + 1;
      if nexttail >= txBuffer.Length {
        nexttail := 0;
      }
      r, inactive := WaitForRoom(nexttail, nonblock, idle, r0);
      if r.Woken? {
        FullMeans(nexttail);
        Put(msg, nexttail);
      }
    }

    /** The outer loop of can_write: `k` messages, `nsent` bytes long, went into the ring, and the
        loop ended behind the last message or in a wait. */
    method Fill(buffer: seq<Byte>, nonblock: bool, idle: bool, ghost msgs: seq<Msg>, ghost r0: nat)
      returns (w: Wait, inactive: bool, nsent: nat, ghost k: nat)
      requires Valid() && nTxWaiters < 255 && r0 <= refusals && Knows(idle, r0)
      requires EncodeAll(msgs) <= buffer && |buffer| < |EncodeAll(msgs)| + HDRLEN
      modifies this, txBuffer
      ensures Valid() && Counted(w) && !w.Interrupted? && old(|sent|) <= |sent| && old(refusals) <= refusals
      ensures k <= |msgs| && written == old(written) + msgs[..k] && (w.Woken? <==> k == |msgs|)
      ensures nsent == |EncodeAll(msgs[..k])| && (k == 0 <==> nsent == 0)
      ensures if nonblock then w.Woken? || w.WouldBlock? else !w.WouldBlock?
      ensures w.WouldBlock? ==> |written| + 1 == completed + txBuffer.Length
      ensures if w.Woken? then Knows(inactive, r0) else w.WouldBlock? || Underway(r0)
      ensures nonblock ==> sent == old(sent) && completed == old(completed)
    {
      hide Counts, Kept, EncodeAll, Decode, Whole, Underway, Knows;
      w, inactive, nsent, k := Woken, idle, 0, 0;
      AtMessage(buffer, msgs, 0);
      while |buffer| - nsent >= HDRLEN
        invariant Valid() && w.Woken? && nTxWaiters == old(nTxWaiters) && old(|sent|) <= |sent|
        invariant old(refusals) <= refusals && Knows(inactive, r0)
        invariant k <= |msgs| && written == old(written) + msgs[..k]
        invariant nsent == |EncodeAll(msgs[..k])| && (k == 0 <==> nsent == 0)
        invariant |buffer| - nsent >= HDRLEN <==> k < |msgs|
        invariant nonblock ==> sent == old(sent) && completed == old(completed)
        decreases |msgs| - k
      {
        AtMessage(buffer, msgs, k);
        var msg := Decode(buffer, nsent);
        w, inactive := Enqueue(msg, nonblock, inactive, r0);
        if !w.Woken? {
          return;
        }
        assert msgs[..k + 1] == msgs[..k] + [msg];
        nsent := nsent + MsgLen(msg);
        k := k + 1;
        AtMessage(buffer, msgs, k);
      }
    }

    /** can_write of a buffer that holds the whole messages `msgs` and less than a header behind
        them. Exactly the first `k` messages are written, in order; all of them if the call
        blocks and returns a count. Only a writer left asleep stays counted as waiting. Unless the
        hardware refuses, messages that wait when the call ends or sleeps wait for one in flight;
        only a short write without blocking hands nothing over. */
    method Write(buffer: seq<Byte>, nonblock: bool, ghost msgs: seq<Msg>) returns (r: Outcome, ghost k: nat)
      requires Valid() && nTxWaiters < 255
      requires EncodeAll(msgs) <= buffer && |buffer| < |EncodeAll(msgs)| + HDRLEN
      modifies this, txBuffer
      ensures Valid() && k <= |msgs| && written == old(written) + msgs[..k] && old(sent) <= sent
      ensures !r.Skipped? && nTxWaiters == if r.Asleep? then old(nTxWaiters) + 1 else old(nTxWaiters)
      ensures r.Returned? && r.ret >= 0 ==> r.ret == |EncodeAll(msgs[..k])|
      ensures !nonblock && r.Returned? && r.ret >= 0 ==> k == |msgs|
      ensures nonblock ==> r.Returned? && (r.ret == -EAGAIN <==> k == 0 < |msgs|) && (r.ret < 0 ==> r.ret == -EAGAIN)
      ensures nonblock && k < |msgs| ==> |written| + 1 == completed + txBuffer.Length
      ensures !nonblock || k == |msgs| ==> !Stranded() || refusals > old(refusals)
      ensures nonblock && k < |msgs| ==> sent == old(sent) && completed == old(completed)
      ensures old(refusals) <= refusals
    {
      hide Counts, Kept, EncodeAll;
      CountsMean();
      ghost var r0 := refusals;
      var inactive := DevTxEmpty(r0);
      var w, nsent;
      w, inactive, nsent, k := Fill(buffer, nonblock, inactive, msgs, r0);
      match w {
        case Woken =>
          Kick(inactive, r0);
          r := Returned(nsent);
        case WouldBlock => r := Returned(if nsent == 0 then -EAGAIN else nsent);
        case WaitError(errno) => r := Returned(-(errno as int));
        case StillWaiting => r := Asleep;
      }
      CountsMean();
    }

    /** One action: a write, unless a writer already sleeps; a completion, if a message is in flight
        or the ring is empty. */
    method Act(a: Action) returns (r: Outcome, ghost k: nat)
      requires Valid() && nTxWaiters <= 1 && (a.WriteCall? ==> |a.tail| < HDRLEN)
      modifies this, txBuffer
      ensures Valid() && nTxWaiters <= 1 && Reports(a, r, k)
      ensures written == old(written) + Stored(a, k) && old(sent) <= sent
      ensures a.WriteCall? ==> (r.Skipped? <==> old(nTxWaiters) > 0)
      ensures nTxWaiters == if r.Asleep? then 1 else old(nTxWaiters)
      ensures a.Completion? ==> !r.Asleep? && (r.Skipped? <==> old(Stranded()))
      ensures a.Completion? && old(completed < |sent|) ==> r == Returned(0) && completed > old(completed)
      ensures a.Completion? && old(completed == |written|) ==> r == Returned(-ENOENT) && sent == old(sent)
      ensures old(refusals) <= refusals
      ensures old(!Stranded()) && InFull(a, r, k) ==> !Stranded() || refusals > old(refusals)
    {
      hide Counts, Kept, EncodeAll;
      CountsMean();
      r, k := Skipped, 0;
      if a.WriteCall? {
        if nTxWaiters == 0 {
          r, k := Write(EncodeAll(a.msgs) + a.tail, a.nonblock, a.msgs);
        }
      } else {
        Indices();
        if txHead != txQueue || txHead == txTail {
          var ret := TxDone();
          r := Returned(ret);
        }
      }
      CountsMean();
    }

    /** Any run of writes, completions and spurious completions: the ring stays valid, the hardware
        got the written messages in order, and what was written is what the writes accepted. If no write
        without blocking was cut short, no message ever waits while the hardware is idle, unless the
        hardware refused, and no completion comes for nothing. */
    method Session(script: seq<Action>) returns (results: seq<Outcome>, ghost counts: seq<nat>)
      requires Valid() && nTxWaiters == 0
      requires forall i | 0 <= i < |script| && script[i].WriteCall? :: |script[i].tail| < HDRLEN
      modifies this, txBuffer
      ensures Valid() && old(sent) <= sent <= written
      ensures AllReport(script, results, counts)
      ensures written == old(written) + Accepted(script, counts)
      ensures old(!Stranded()) && AllInFull(script, results, counts) ==> !Stranded() || refusals > old(refusals)
      ensures Excused(script, results)
      ensures AllInFull(script, results, counts) ==>
                Smooth(script, results) || old(Stranded()) || refusals > old(refusals)
    {
      hide Counts, Kept, EncodeAll, Accepted, AllReport, AllInFull, Sleeper, Excused, Smooth;
      results, counts := [], [];
      StartOfScript();
      CountsMean();
      for i := 0 to |script|
        invariant Valid() && nTxWaiters <= 1 && old(sent) <= sent
        invariant AllReport(script[..i], results, counts) && |results| == i == |counts| && Bounded(script[..i], counts)
        invariant written == old(written) + Accepted(script[..i], counts) && old(refusals) <= refusals
        invariant old(!Stranded()) && AllInFull(script[..i], results, counts) ==>
                    !Stranded() || refusals > old(refusals)
        invariant (nTxWaiters > 0 ==> Sleeper(results, i)) && Excused(script[..i], results)
        invariant AllInFull(script[..i], results, counts) ==>
                    Smooth(script[..i], results) || old(Stranded()) || refusals > old(refusals)
      {
        var r;
        ghost var k;
        r, k := Act(script[i]);
        AcceptedMore(script[..i], counts, script[i], k);
        ScriptMore(script[..i], results, counts, script[i], r, k);
        results, counts := results + [r], counts + [k];
        assert script[..i + 1] == script[..i] + [script[i]];
      }
      CountsMean();
      assert script[..|script|] == script;
    }

    static lemma {:induction false} SplitAt(msgs: seq<Msg>, k: nat)
      requires k < |msgs|
      ensures EncodeAll(msgs) == EncodeAll(msgs[..k]) + Encode(msgs[k]) + EncodeAll(msgs[k + 1..])
      ensures |EncodeAll(msgs[..k + 1])| == |EncodeAll(msgs[..k])| + MsgLen(msgs[k])
    {
      var m := msgs[k];
      EncodeAllConcat(msgs[..k], [m]);
      assert msgs[..k + 1] == msgs[..k] + [m] && [m][1..] == [] && EncodeAll([m]) == Encode(m) + [];
      EncodeAllConcat(msgs[..k + 1], msgs[k + 1..]);
      assert msgs == msgs[..k + 1] + msgs[k + 1..];
    }

    /** Where message `k` stands in the buffer. */
    static lemma {:induction false} AtMessage(buffer: seq<Byte>, msgs: seq<Msg>, k: nat)
      requires k <= |msgs| && EncodeAll(msgs) <= buffer && |buffer| < |EncodeAll(msgs)| + HDRLEN
      ensures var at := |EncodeAll(msgs[..k])|;
              (k == 0 ==> at == 0) && (|buffer| - at >= HDRLEN <==> k < |msgs|)
              && (k < |msgs| ==> Whole(buffer, at) && Decode(buffer, at) == msgs[k]
                                 && |EncodeAll(msgs[..k + 1])| == at + MsgLen(msgs[k]))
    {
      hide Decode, Encode;
      if k < |msgs| {
        var before, m := EncodeAll(msgs[..k]), msgs[k];
        SplitAt(msgs, k);
        var after := buffer[|before| + MsgLen(m)..];
        assert buffer == before + Encode(m) + after;
        DecodeEncoded(before, m, after);
      } else {
        assert msgs[..k] == msgs;
      }
    }
  }
}
