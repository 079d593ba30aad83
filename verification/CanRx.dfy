/** The receive side of os/drivers/can.c: a ring of messages filled by the interrupt handler
    and emptied, as many whole messages as fit, by readers. */
module CanRx {
  import opened Platform
  import opened CanCodec

  /** How many of the queued messages the copy loop of can_read moves into `room` bytes. */
  function Taken(queue: seq<Msg>, room: nat): (k: nat)
    ensures k <= |queue|
  {
    if queue == [] || MsgLen(queue[0]) > room then 0
    else 1 + Taken(queue[1..], room - MsgLen(queue[0]))
  }

  /** The bytes moved fit the buffer, and the next message would not. */
  lemma {:induction false} TakenIsMaximal(queue: seq<Msg>, room: nat)
    ensures var k := Taken(queue, room);
            |EncodeAll(queue[..k])| <= room && (k < |queue| ==> |EncodeAll(queue[..k + 1])| > room)
    decreases |queue|
  {
    var k := Taken(queue, room);
    if queue != [] {
      assert queue[..1][1..] == [] && EncodeAll(queue[..1]) == Encode(queue[0]);
      if MsgLen(queue[0]) <= room {
        TakenIsMaximal(queue[1..], room - MsgLen(queue[0]));
        assert queue[..k][1..] == queue[1..][..k - 1];
        if k < |queue| { assert queue[..k + 1][1..] == queue[1..][..k]; }
      }
    }
  }

  lemma TakenStep(queue: seq<Msg>, room: nat)
    ensures Taken(queue, room) ==
            if queue == [] || MsgLen(queue[0]) > room then 0 else 1 + Taken(queue[1..], room - MsgLen(queue[0]))
  {
  }

  lemma {:induction false} EncodePrefix(queue: seq<Msg>, k: nat)
    requires k < |queue|
    ensures EncodeAll(queue[..0]) == [] && EncodeAll(queue[..k + 1]) == EncodeAll(queue[..k]) + Encode(queue[k])
  {
    EncodeAllConcat(queue[..k], [queue[k]]);
    assert queue[..k + 1] == queue[..k] + [queue[k]] && EncodeAll([queue[k]]) == Encode(queue[k]);
  }

  lemma EncodeLength(msg: Msg)
    ensures |Encode(msg)| == MsgLen(msg)
  {
  }

  /** cd_recv. `queue` are the messages held, oldest first. */
  class RxFifo {
    const rxBuffer: array<Msg>
    var rxHead: nat
    var rxTail: nat
    ghost var queue: seq<Msg>

    ghost function Slot(k: nat): nat
      reads this
    {
      if rxHead + k >= rxBuffer.Length then rxHead + k - rxBuffer.Length else rxHead + k
    }

    ghost predicate Valid()
      reads this, rxBuffer
    {
      && rxHead < rxBuffer.Length && |queue| < rxBuffer.Length && rxTail == Slot(|queue|)
      && forall k | 0 <= k < |queue| :: Slot(k) < rxBuffer.Length && rxBuffer[Slot(k)] == queue[k]
    }

    constructor (fifoSize: nat)
      requires 0 < fifoSize
      ensures Valid() && fresh(rxBuffer) && rxBuffer.Length == fifoSize && queue == []
    {
      rxBuffer := new Msg[fifoSize];
      rxHead, rxTail, queue := 0, 0, [];
    }

    /** can_receive without a matching remote request: refused exactly when one less than
        the ring size is held. */
    method Receive(msg: Msg) returns (err: int)
      requires Valid()
      modifies this, rxBuffer
      ensures Valid()
      ensures if |old(queue)| == rxBuffer.Length - 1 then err == -ENOMEM && queue == old(queue)
              else err == 0 && queue == old(queue) + [msg]
    {
      var nexttail := rxTail + 1;
      if nexttail >= rxBuffer.Length {
        nexttail := 0;
      }
      err := -ENOMEM;
      if nexttail != rxHead {
        rxBuffer[rxTail] := msg;
        rxTail := nexttail;
        queue := queue + [msg];
        err := 0;
      }
    }

    /** The ring is empty exactly when its indices meet; otherwise its head holds the oldest message. */
    lemma Indices()
      requires Valid()
      ensures rxHead == rxTail <==> queue == []
      ensures queue != [] ==> rxHead < rxBuffer.Length && rxBuffer[rxHead] == queue[0]
    {
      if queue != [] { assert rxBuffer[Slot(0)] == queue[0]; }
    }

    /** The copy loop of can_read, entered with a message queued. */
    method Drain(buflen: nat) returns (buffer: seq<Byte>)
      requires Valid() && queue != []
      modifies this
      ensures Valid()
      ensures var k := Taken(old(queue), buflen);
              queue == old(queue)[k..] && buffer == EncodeAll(old(queue)[..k]) && |buffer| <= buflen
    {
      hide Valid, Taken, EncodeAll, Encode;
      ghost var q, k := queue, 0;
      EncodePrefix(q, 0);
      buffer := [];
      while true
        invariant k < |q| && Valid() && queue == q[k..]
        invariant buffer == EncodeAll(q[..k]) && |buffer| <= buflen
        invariant Taken(q, buflen) == k + Taken(queue, buflen - |buffer|)
        decreases |q| - k
      {
        Indices();
        var msg := rxBuffer[rxHead];
        TakenStep(queue, buflen - |buffer|);
        if |buffer| + MsgLen(msg) > buflen {
          break;
        }
        EncodePrefix(q, k);
        EncodeLength(msg);
        buffer := buffer + Encode(msg);
        PopHead();
        k := k + 1;
        Indices();
        if rxHead == rxTail {
          TakenStep(queue, buflen - |buffer|);
          break;
        }
      }
    }

    method PopHead()
      requires Valid() && queue != []
      modifies this
      ensures Valid() && queue == old(queue)[1..]
    {
      ghost var q := queue;
      rxHead := rxHead + 1;
      if rxHead >= rxBuffer.Length {
        rxHead := 0;
      }
      queue := queue[1..];
      assert forall j | 0 <= j < |queue| :: Slot(j) == old(Slot(j + 1)) && rxBuffer[Slot(j)] == q[j + 1];
    }
  }
}
