/** The receive half of the device as os/drivers/can.c keeps it: the ring, the semaphore and its
    sleepers in one object whose calls take the steps of the state machine in CanReaders. */
module CanReceiver {
  import opened Platform
  import opened CanCodec
  import opened CanRx
  import opened CanReaders

  class Receiver {
    const fifo: RxFifo
    var rxSem: nat
    var blocked: multiset<nat>
    var woken: multiset<nat>
    ghost var out: seq<Byte>
    ghost var accepted: seq<Msg>

    ghost predicate Valid()
      reads fifo, fifo.rxBuffer
    {
      fifo.Valid()
    }

    ghost function View(): Rx
      reads this, fifo
    {
      Rx(fifo.rxBuffer.Length, fifo.queue, rxSem, blocked, woken, out, accepted)
    }

    constructor (fifoSize: nat)
      requires fifoSize > 0
      ensures Valid() && View() == Start(fifoSize) && fresh(fifo) && fresh(fifo.rxBuffer)
    {
      fifo := new RxFifo(fifoSize);
      rxSem, blocked, woken, out, accepted := 0, multiset{}, multiset{}, [], [];
    }

    /** can_receive: store the message and post, waking the sleeper `wake` if there is one. */
    method OnReceive(msg: Msg, wake: nat) returns (err: int)
      requires Valid() && Possible(View(), Receive(msg, wake))
      modifies this, fifo, fifo.rxBuffer
      ensures Valid() && (View(), err) == Step(old(View()), Receive(msg, wake))
    {
      err := fifo.Receive(msg);
      if err == 0 {
        accepted := accepted + [msg];
        if blocked == multiset{} {
          rxSem := rxSem + 1;
        } else {
          blocked, woken := blocked - multiset{wake}, woken + multiset{wake};
        }
      }
    }

    /** can_read from its wait loop on. A reader that has to sleep joins the sleepers and `ret` is
        meaningless until it is resumed. */
    method Read(buflen: nat, nonblock: bool) returns (ret: int, buffer: seq<Byte>)
      requires Valid()
      modifies this, fifo
      ensures Valid() && (View(), ret) == ReadOn(old(View()), buflen, nonblock) && out == old(out) + buffer
      ensures if ret < 0 then ret == -EAGAIN && buffer == [] else ret == |buffer| <= buflen
    {
      hide EncodeAll, Taken;
      buffer := [];
      fifo.Indices();
      while fifo.rxHead == fifo.rxTail
        invariant Valid() && (fifo.rxHead == fifo.rxTail <==> fifo.queue == []) && out == old(out)
        invariant ReadOn(View(), buflen, nonblock) == ReadOn(old(View()), buflen, nonblock)
        decreases rxSem
      {
        if nonblock {
          return -EAGAIN, [];
        }
        if rxSem == 0 {
          blocked := blocked + multiset{buflen};
          return 0, [];
        }
        rxSem := rxSem - 1;
        fifo.Indices();
      }
      buffer := fifo.Drain(buflen);
      out := out + buffer;
      ret := |buffer|;
    }

    /** Any step of the machine is a call on the object. */
    method Take(e: Event) returns (ret: int)
      requires Valid() && Possible(View(), e)
      modifies this, fifo, fifo.rxBuffer
      ensures Valid() && (View(), ret) == Step(old(View()), e)
    {
      hide ReadOn;
      match e
      case Receive(msg, wake) =>
        ret := OnReceive(msg, wake);
      case Enter(buflen, nonblock) =>
        ret := 0;
        if buflen >= HDRLEN {
          var bytes;
          ret, bytes := Read(buflen, nonblock);
        }
      case Resume(buflen) =>
        woken := woken - multiset{buflen};
        var bytes;
        ret, bytes := Read(buflen, false);
      case Signal(buflen) =>
        blocked := blocked - multiset{buflen};
        ret := -EINTR;
    }

    /** Whatever happens to the object, as far as each event can happen, is a run of the machine: so
        the bytes returned are whole messages, and with the queue they are the accepted ones in order. */
    method Execute(events: seq<Event>) returns (ghost happened: seq<Event>)
      requires Valid() && View() == Start(fifo.rxBuffer.Length)
      modifies this, fifo, fifo.rxBuffer
      ensures Valid() && View() == After(old(View()), events) && Runs(old(View()), happened, View())
      ensures |fifo.queue| <= |accepted| && accepted == Delivered(View()) + fifo.queue
      ensures out == EncodeAll(Delivered(View()))
    {
      hide Step, Runs, EncodeAll, After;
      happened := [];
      ghost var s := View();
      RunsNothing(s);
      AfterNothing(s);
      assert events[..0] == [];
      for i := 0 to |events|
        invariant Valid() && View() == After(s, events[..i]) && Runs(s, happened, View())
      {
        var e := events[i];
        AfterMore(s, events, i);
        var can := match e
          case Receive(_, wake) => blocked == multiset{} || wake in blocked
          case Enter(_, _) => true
          case Resume(b) => b in woken
          case Signal(b) => b in blocked;
        if can {
          RunsOneMore(s, happened, View(), e);
          happened := happened + [e];
          var _ := Take(e);
        }
      }
      assert events[..|events|] == events;
      RunConserves(fifo.rxBuffer.Length, happened, View());
    }
  }
}
