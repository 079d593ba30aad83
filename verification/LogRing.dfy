/** The log ring of os/logm: producers store formatted messages with interrupts masked, one
    consumer prints them in three separate steps, and one slot more than the ring's nominal
    size is kept for a notice that messages are being dropped. */
module LogRing {
  import opened CStrings
  import Ring

  const NOTICE: string := "LOGM: Buffer Overflow dropping messages\n"

  datatype Entry = Message(text: string) | Notice

  function TextOf(e: Entry): string { if e.Message? then e.text else NOTICE }

  // ---------------------------------------------------------------- one slot

  /** A slot of `len` bytes after vsnprintf of `text` into it and the newline patch: text that
      does not fit leaves the slot without a NUL. */
  function Formatted(slot: string, text: string, len: nat): (r: string)
    requires |slot| == len > 0
    ensures |r| == len
  {
    if |text| >= len - 1 then text[..len - 1] + ['\n'] else text + [NUL] + slot[|text| + 1..]
  }

  /** A text that fits is followed by a NUL, with the old bytes behind it; of any other the first `len - 1`
      bytes are kept and the last byte of the slot is a line feed. */
  lemma FormattedMeans(slot: string, text: string, len: nat)
    requires |slot| == len > 0
    ensures var r := Formatted(slot, text, len);
            && |r| == len && (forall i | 0 <= i < |text| && i < len - 1 :: r[i] == text[i])
            && (if |text| + 1 < len then r[|text|] == NUL && forall i | |text| < i < len :: r[i] == slot[i]
                else r[len - 1] == '\n')
    ensures if |text| + 1 < len then Shown(text, len) == text
            else |Shown(text, len)| == len && Shown(text, len) == text[..len - 1] + "\n"
  {
  }

  function Flat(slots: seq<string>): string {
    if slots == [] then [] else slots[0] + Flat(slots[1..])
  }

  /** fputs of slot `i`: the bytes up to the next NUL, across slots if need be and on into the
      memory `behind` the array. */
  function Fputs(slots: seq<string>, i: nat, behind: string): string
    requires i <= |slots|
  {
    CString(Flat(slots[i..]) + behind)
  }

  /** What the slot was meant to show: the text, cut to the slot with a newline at its end. */
  function Shown(text: string, len: nat): string
    requires len > 0
  {
    if |text| >= len - 1 then text[..len - 1] + ['\n'] else text
  }

  /** What the slot prints if nothing behind it does: the text shown, up to a NUL in it. */
  function Visible(text: string, len: nat): string
    requires len > 0
  {
    CString(Shown(text, len))
  }

  /** The text ends inside its slot: it fits together with the NUL, or the part shown holds one. */
  ghost predicate Terminated(text: string, len: nat)
    requires len > 0
  {
    |text| + 1 < len || !NulFree(Shown(text, len))
  }

  lemma VisibleIsShown(text: string, len: nat)
    requires len > 0 && NulFree(text)
    ensures Visible(text, len) == Shown(text, len)
  {
    CStringPrefix(Shown(text, len), []);
  }

  lemma FormattedPrints(old_slot: string, text: string, len: nat, rest: string)
    requires 0 < len == |old_slot|
    ensures CString(Formatted(old_slot, text, len) + rest) ==
            if Terminated(text, len) then Visible(text, len) else Visible(text, len) + CString(rest)
  {
    var slot := Formatted(old_slot, text, len);
    if |text| < len - 1 {
      var tail := [NUL] + old_slot[|text| + 1..] + rest;
      assert slot + rest == text + tail;
      CStringPrefix(text, tail);
      assert text + [] == text;
    } else {
      assert slot == Shown(text, len);
      CStringPrefix(slot, rest);
    }
  }

  /** Printing a slot always begins with what it was meant to print, and shows exactly that unless the
      text does not end inside its slot and the next byte in memory, in the next slot or behind
      the last one, is not a NUL: then the output runs on. */
  lemma {:induction false} PrintsExactlyIff(slots: seq<string>, i: nat, behind: string, old_slot: string, text: string,
                                            len: nat)
    requires 0 < len == |old_slot| && i < |slots| && slots[i] == Formatted(old_slot, text, len)
    ensures Visible(text, len) <= Fputs(slots, i, behind)
    ensures Fputs(slots, i, behind) == Visible(text, len) <==>
            Terminated(text, len) || CString(Flat(slots[i + 1..]) + behind) == []
  {
    hide Visible, Terminated, CString;
    var rest := Flat(slots[i + 1..]) + behind;
    assert slots[i..][1..] == slots[i + 1..];
    assert Flat(slots[i..]) + behind == slots[i] + rest;
    FormattedPrints(old_slot, text, len, rest);
    assert |Visible(text, len) + CString(rest)| == |Visible(text, len)| + |CString(rest)|;
    if CString(rest) == [] { assert Visible(text, len) + CString(rest) == Visible(text, len); }
  }

  ghost predicate Holds(slot: string, text: string, len: nat)
    requires len > 0
  {
    exists before: string | |before| == len :: slot == Formatted(before, text, len)
  }

  /** The entries from `freed` on are in their slots. */
  ghost predicate SlotsHold(slots: seq<string>, len: nat, freed: nat, stored: seq<Entry>)
    requires len > 0
  {
    && |slots| > 0 && (forall i | 0 <= i < |slots| :: |slots[i]| == len)
    && (forall k | freed <= k < |stored| :: Holds(slots[k % |slots|], TextOf(stored[k]), len))
  }

  lemma FormattedHolds(slot: string, text: string, len: nat)
    requires |slot| == len > 0
    ensures Holds(Formatted(slot, text, len), text, len)
  {
  }

  lemma StoreKeepsSlots(slots: seq<string>, len: nat, freed: nat, stored: seq<Entry>, e: Entry)
    requires len > 0 && SlotsHold(slots, len, freed, stored) && freed <= |stored| < freed + |slots|
    ensures var at := |stored| % |slots|;
            SlotsHold(slots[at := Formatted(slots[at], TextOf(e), len)], len, freed, stored + [e])
  {
    hide Holds, Formatted;
    var n := |slots|;
    var at := |stored| % n;
    var slots' := slots[at := Formatted(slots[at], TextOf(e), len)];
    FormattedHolds(slots[at], TextOf(e), len);
    forall k | freed <= k < |stored + [e]| ensures Holds(slots'[k % n], TextOf((stored + [e])[k]), len) {
      if k < |stored| {
        Ring.SameSlot(k, |stored|, n);
        assert Holds(slots[k % n], TextOf(stored[k]), len);
      }
    }
  }

  /** For example, with slots of four bytes a message of three runs into the one behind it. */
  lemma LongMessageRunsOn()
    ensures var slots := [Formatted([NUL, NUL, NUL, NUL], "abc", 4), Formatted([NUL, NUL, NUL, NUL], "hi", 4)];
            Fputs(slots, 0, [NUL]) != Shown("abc", 4) == Visible("abc", 4)
  {
    var slots := [Formatted([NUL, NUL, NUL, NUL], "abc", 4), Formatted([NUL, NUL, NUL, NUL], "hi", 4)];
    PrintsExactlyIff(slots, 0, [NUL], [NUL, NUL, NUL, NUL], "abc", 4);
    VisibleIsShown("abc", 4);
    assert slots[1..] == [slots[1]] && [slots[1]][1..] == [];
    assert Flat(slots[1..]) == slots[1] + [];
    assert slots[1][0] == 'h';
  }

  lemma HeldPrints(slots: seq<string>, i: nat, behind: string, text: string, len: nat)
    requires len > 0 && i < |slots| && Holds(slots[i], text, len)
    ensures PrintedAs(Fputs(slots, i, behind), text, len)
  {
    hide Visible, Terminated, CString;
    var before: string :| |before| == len && slots[i] == Formatted(before, text, len);
    PrintsExactlyIff(slots, i, behind, before, text, len);
  }

  /** The output begins with what the entry was meant to print, and is that alone if the entry's text
      ends inside its slot. */
  ghost predicate PrintedAs(line: string, text: string, len: nat)
    requires len > 0
  {
    Visible(text, len) <= line && (Terminated(text, len) ==> line == Visible(text, len))
  }

  /** Entry by entry, in order and once each, the entries have been printed. */
  ghost predicate OutputRight(output: seq<string>, stored: seq<Entry>, len: nat)
    requires |output| <= |stored| && len > 0
  {
    forall k | 0 <= k < |output| :: PrintedAs(output[k], TextOf(stored[k]), len)
  }

  lemma OutputLater(output: seq<string>, stored: seq<Entry>, e: Entry, len: nat)
    requires |output| <= |stored| && len > 0 && OutputRight(output, stored, len)
    ensures OutputRight(output, stored + [e], len)
  {
    hide PrintedAs, TextOf;
  }

  lemma OutputStep(output: seq<string>, stored: seq<Entry>, slots: seq<string>, i: nat, behind: string, len: nat)
    requires |output| < |stored| && len > 0 && OutputRight(output, stored, len)
    requires i < |slots| && Holds(slots[i], TextOf(stored[|output|]), len)
    ensures OutputRight(output + [Fputs(slots, i, behind)], stored, len)
  {
    hide TextOf, Fputs, Holds, PrintedAs;
    HeldPrints(slots, i, behind, TextOf(stored[|output|]), len);
  }

  // ---------------------------------------------------------------- lost messages

  /** Every attempt to log is accounted for by an entry at its place: `cover[k]` consecutive
      attempts by entry k, a message by itself, a notice for one or more lost messages. */
  ghost predicate Accounts(attempts: seq<string>, stored: seq<Entry>, cover: seq<nat>)
    decreases |stored|
  {
    |cover| == |stored| &&
    if stored == [] then attempts == []
    else
      var e, c := stored[|stored| - 1], cover[|cover| - 1];
      1 <= c <= |attempts|
      && (e.Message? ==> c == 1 && e.text == attempts[|attempts| - 1])
      && Accounts(attempts[..|attempts| - c], stored[..|stored| - 1], cover[..|cover| - 1])
  }

  lemma AccountsLast(attempts: seq<string>, stored: seq<Entry>, cover: seq<nat>)
    requires |cover| == |stored| > 0
    ensures var e, c := stored[|stored| - 1], cover[|cover| - 1];
            Accounts(attempts, stored, cover) <==>
            && 1 <= c <= |attempts| && (e.Message? ==> c == 1 && e.text == attempts[|attempts| - 1])
            && Accounts(attempts[..|attempts| - c], stored[..|stored| - 1], cover[..|cover| - 1])
  {
  }

  lemma CoverSizes(attempts: seq<string>, stored: seq<Entry>, cover: seq<nat>)
    requires Accounts(attempts, stored, cover)
    ensures |cover| == |stored|
  {
  }

  lemma {:induction false} AccountsStored(attempts: seq<string>, stored: seq<Entry>, cover: seq<nat>, msg: string,
                                          e: Entry)
    requires Accounts(attempts, stored, cover) && (e == Message(msg) || e == Notice)
    ensures Accounts(attempts + [msg], stored + [e], cover + [1])
  {
    AccountsLast(attempts + [msg], stored + [e], cover + [1]);
    CoverSizes(attempts, stored, cover);
    hide Accounts;
    assert (attempts + [msg])[..|attempts|] == attempts;
    assert (stored + [e])[..|stored|] == stored && (cover + [1])[..|cover|] == cover;
  }

  lemma {:induction false} AccountsDropped(attempts: seq<string>, stored: seq<Entry>, cover: seq<nat>, msg: string)
    requires Accounts(attempts, stored, cover) && stored != [] && stored[|stored| - 1] == Notice
    ensures var c := cover[|cover| - 1]; Accounts(attempts + [msg], stored, cover[..|cover| - 1] + [c + 1])
  {
    var n, c := |cover| - 1, cover[|cover| - 1];
    var cover' := cover[..n] + [c + 1];
    assert (attempts + [msg])[..|attempts| + 1 - (c + 1)] == attempts[..|attempts| - c];
    assert cover'[..n] == cover[..n];
  }

  function SumOf(cover: seq<nat>): nat {
    if cover == [] then 0 else SumOf(cover[..|cover| - 1]) + cover[|cover| - 1]
  }

  /** Attempt `i` falls to entry `k`. */
  ghost predicate FallsTo(cover: seq<nat>, i: nat, k: nat) {
    k < |cover| && SumOf(cover[..k]) <= i < SumOf(cover[..k + 1])
  }

  /** Every attempt to log, in order, has an entry at its place: the message itself or a notice. */
  lemma {:induction false} EveryAttemptHasItsEntry(attempts: seq<string>, stored: seq<Entry>, cover: seq<nat>, i: nat)
    requires Accounts(attempts, stored, cover) && i < |attempts|
    ensures SumOf(cover) == |attempts|
    ensures exists k: nat :: FallsTo(cover, i, k) && (stored[k] == Message(attempts[i]) || stored[k] == Notice)
    decreases |stored|
  {
    var n := |stored| - 1;
    var c := cover[n];
    AccountsAddUp(attempts, stored, cover);
    AccountsAddUp(attempts[..|attempts| - c], stored[..n], cover[..n]);
    if i < |attempts| - c {
      EveryAttemptHasItsEntry(attempts[..|attempts| - c], stored[..n], cover[..n], i);
      var k: nat :| FallsTo(cover[..n], i, k) && (stored[..n][k] == Message(attempts[i]) || stored[..n][k] == Notice);
      assert cover[..n][..k] == cover[..k] && cover[..n][..k + 1] == cover[..k + 1];
      assert FallsTo(cover, i, k);
    } else {
      assert cover[..n + 1] == cover;
      assert FallsTo(cover, i, n);
    }
  }

  lemma {:induction false} AccountsAddUp(attempts: seq<string>, stored: seq<Entry>, cover: seq<nat>)
    requires Accounts(attempts, stored, cover)
    ensures SumOf(cover) == |attempts|
    decreases |stored|
  {
    if stored != [] {
      var c := cover[|cover| - 1];
      AccountsAddUp(attempts[..|attempts| - c], stored[..|stored| - 1], cover[..|cover| - 1]);
    }
  }

  // ---------------------------------------------------------------- the ring

  /** Where the consumer stands: at the loop test, after fputs, after moving the head. */
  datatype Phase = AtTest | Printed | Advanced

  /** A step of a run: a producer logs a message, or the consumer goes on, with `behind` what it would
      find behind the ring in memory. */
  datatype Step = Offer(msg: string) | Go(behind: string)

  function Offered(steps: seq<Step>): seq<string> {
    if steps == [] then []
    else
      var last := steps[|steps| - 1];
      Offered(steps[..|steps| - 1]) + if last.Offer? then [last.msg] else []
  }

  /** How many entries have been stored, printed and given back, and where the consumer stands. */
  datatype Place = Place(stored: nat, printed: nat, freed: nat, phase: Phase)

  /** A producer stores one more entry unless the ring and the extra slot are taken; the consumer prints the
      next entry if there is one, then moves the head, then gives the slot back. */
  function Moved(p: Place, n: nat, step: Step): Place {
    match step
    case Offer(_) => if p.stored <= p.freed + n then p.(stored := p.stored + 1) else p
    case Go(_) =>
      match p.phase
      case AtTest => if p.stored > p.freed then p.(printed := p.printed + 1, phase := Printed) else p
      case Printed => p.(phase := Advanced)
      case Advanced => p.(freed := p.freed + 1, phase := AtTest)
  }

  function MovedAll(p: Place, n: nat, steps: seq<Step>): Place {
    if steps == [] then p else Moved(MovedAll(p, n, steps[..|steps| - 1]), n, steps[|steps| - 1])
  }

  lemma StepsNone(p: Place, n: nat)
    ensures MovedAll(p, n, []) == p && Offered([]) == []
  {
  }

  lemma StepsMore(p: Place, n: nat, steps: seq<Step>, i: nat)
    requires i < |steps|
    ensures MovedAll(p, n, steps[..i + 1]) == Moved(MovedAll(p, n, steps[..i]), n, steps[i])
    ensures Offered(steps[..i + 1]) == Offered(steps[..i]) + if steps[i].Offer? then [steps[i].msg] else []
  {
    assert steps[..i + 1][..i] == steps[..i];
  }

  class LogmRing {
    const rsvbuf: array<string>
    const len: nat
    var head: nat
    var tail: nat
    var count: nat
    var phase: Phase

    ghost var attempts: seq<string>   // every message offered
    ghost var stored: seq<Entry>      // every entry ever put into a slot
    ghost var cover: seq<nat>
    ghost var printed: nat            // entries passed to fputs
    ghost var freed: nat              // entries whose slot has been given back
    ghost var output: seq<string>     // what each fputs wrote

    /** LOGM_RSVBUF_COUNT. */
    function N(): nat
      requires rsvbuf.Length > 0
    {
      rsvbuf.Length - 1
    }

    ghost function View(): Place
      reads this
    {
      Place(|stored|, printed, freed, phase)
    }

    ghost predicate Counters()
      reads this`head, this`tail, this`count, this`phase, this`stored, this`printed, this`freed
    {
      && rsvbuf.Length > 0 && len > 0
      && freed <= printed == (if phase.AtTest? then freed else freed + 1)
      && freed <= |stored| && count == |stored| - freed <= rsvbuf.Length && printed <= |stored|
      && tail == |stored| % rsvbuf.Length
      && head == (if phase.Printed? then freed else printed) % rsvbuf.Length
    }

    /** No slot is reused before its entry has been given back. */
    ghost predicate Slots()
      reads this`stored, this`freed, rsvbuf
    {
      len > 0 && SlotsHold(rsvbuf[..], len, freed, stored)
    }

    ghost predicate Valid()
      reads this, rsvbuf
    {
      && Counters() && Slots()
      && Accounts(attempts, stored, cover)
      && (count == rsvbuf.Length ==> stored[|stored| - 1] == Notice)
      && |output| == printed && OutputRight(output, stored, len)
    }

    constructor (n: nat, len: nat)
      requires len > 0
      ensures Valid() && fresh(rsvbuf) && N() == n && this.len == len && attempts == [] && phase.AtTest?
    {
      rsvbuf := new string[n + 1](_ => seq(len, _ => NUL));
      this.len := len;
      head, tail, count, phase := 0, 0, 0, AtTest;
      attempts, stored, cover, printed, freed, output := [], [], [], 0, 0, [];
    }

    /** Format into the tail slot and move the tail. */
    method StoreEntry(ghost e: Entry, text: string)
      requires Counters() && Slots() && count < rsvbuf.Length && text == TextOf(e)
      modifies this`tail, this`count, this`stored, rsvbuf
      ensures Counters() && Slots() && stored == old(stored) + [e] && count == old(count) + 1
      ensures old(tail) < rsvbuf.Length && Holds(rsvbuf[old(tail)], text, len)
    {
      hide SlotsHold, Holds, Formatted;
      SlotSizes();
      StoreKeepsSlots(rsvbuf[..], len, freed, stored, e);
      Ring.Next(|stored|, rsvbuf.Length);
      ghost var before := rsvbuf[..];
      FormattedHolds(rsvbuf[tail], text, len);
      rsvbuf[tail] := Formatted(rsvbuf[tail], text, len);
      assert rsvbuf[..] == before[tail := Formatted(before[tail], text, len)];
      tail := tail + 1;
      if tail >= N() + 1 {
        tail := tail - (N() + 1);
      }
      count := count + 1;
      stored := stored + [e];
    }

    /** logm_internal with the ring ready, outside interrupt context. */
    method Logm(msg: string) returns (ret: int)
      requires Valid()
      modifies this, rsvbuf
      ensures Valid() && attempts == old(attempts) + [msg] && phase == old(phase)
      ensures printed == old(printed) && freed == old(freed) && output == old(output)
      ensures stored == if old(count) < N() then old(stored) + [Message(msg)]
                        else if old(count) == N() then old(stored) + [Notice] else old(stored)
      ensures ret == if old(count) < N() then |msg| else if old(count) == N() then |NOTICE| else 0
      ensures View() == Moved(old(View()), N(), Offer(msg))
      ensures old(tail) < rsvbuf.Length && len > 0
      ensures old(count) <= N() ==> Holds(rsvbuf[old(tail)], if old(count) < N() then msg else NOTICE, len)
    {
      hide Counters, Slots, Accounts, OutputRight, Holds;
      CountersMean();
      if count < N() {
        AccountsStored(attempts, stored, cover, msg, Message(msg));
        OutputLater(output, stored, Message(msg), len);
        StoreEntry(Message(msg), msg);
        ret := |msg|;
        cover := cover + [1];
      } else if count == N() {
        AccountsStored(attempts, stored, cover, msg, Notice);
        OutputLater(output, stored, Notice, len);
        StoreEntry(Notice, NOTICE);
        ret := |NOTICE|;
        cover := cover + [1];
      } else {
        AccountsDropped(attempts, stored, cover, msg);
        CoverSize();
        cover := cover[..|cover| - 1] + [cover[|cover| - 1] + 1];
        ret := 0;
      }
      attempts := attempts + [msg];
    }

    lemma SlotSizes()
      requires Slots()
      ensures forall i | 0 <= i < rsvbuf.Length :: |rsvbuf[i]| == len
    {
      assert forall i | 0 <= i < rsvbuf.Length :: rsvbuf[i] == rsvbuf[..][i];
    }

    lemma CountersMean()
      requires Counters()
      ensures rsvbuf.Length > 0 && len > 0 && count == |stored| - freed <= rsvbuf.Length
      ensures freed <= printed <= |stored| && tail < rsvbuf.Length
    {
    }

    lemma CoverSize()
      requires Accounts(attempts, stored, cover)
      ensures |cover| == |stored|
    {
    }

    /** The consumer's fputs of the head slot, with whatever lies `behind` the ring in memory. */
    method Print(behind: string)
      requires Valid() && phase.AtTest? && count > 0
      modifies this`phase, this`printed, this`output
      ensures Valid() && phase.Printed? && printed == old(printed) + 1
      ensures output == old(output) + [Fputs(rsvbuf[..], head, behind)]
    {
      hide SlotsHold, Accounts, Fputs, OutputRight, TextOf;
      var line := Fputs(rsvbuf[..], head, behind);
      HeadSlot();
      OutputStep(output, stored, rsvbuf[..], head, behind, len);
      output := output + [line];
      printed := printed + 1;
      phase := Printed;
    }

    lemma HeadSlot()
      requires Valid() && phase.AtTest? && count > 0
      ensures head < rsvbuf.Length && Holds(rsvbuf[head], TextOf(stored[printed]), len)
    {
      assert rsvbuf[..][printed % rsvbuf.Length] == rsvbuf[head];
    }

    /** The consumer moves the head. */
    method Advance()
      requires Valid() && phase.Printed?
      modifies this`phase, this`head
      ensures Valid() && phase.Advanced?
    {
      hide SlotsHold, Accounts, OutputRight;
      Ring.Next(freed, rsvbuf.Length);
      head := head + 1;
      if head >= N() + 1 {
        head := head - (N() + 1);
      }
      phase := Advanced;
    }

    /** The consumer gives the slot back. */
    method Decrement()
      requires Valid() && phase.Advanced?
      modifies this`phase, this`count, this`freed
      ensures Valid() && phase.AtTest? && freed == old(freed) + 1
    {
      hide Accounts, OutputRight, TextOf, Holds;
      count := count - 1;
      freed := freed + 1;
      phase := AtTest;
    }

    /** The consumer's next step; at the loop test it goes on only if the ring holds something. */
    method Consume(behind: string)
      requires Valid()
      modifies this`phase, this`head, this`count, this`printed, this`freed, this`output
      ensures Valid() && old(output) <= output
      ensures View() == Moved(old(View()), N(), Go(behind))
    {
      hide Counters, Slots, Accounts, OutputRight, Fputs;
      CountersMean();
      match phase
      case AtTest =>
        if count > 0 {
          Print(behind);
        }
      case Printed => Advance();
      case Advanced => Decrement();
    }

    /** Any interleaving of producers with the consumer's steps: every attempt to log has its entry,
        its own message or a notice, at its place; the entries come out in order, once each, and those
        whose text ends inside its slot exactly as stored. */
    method Interleave(steps: seq<Step>)
      requires Valid()
      modifies this, rsvbuf
      ensures Valid() && attempts == old(attempts) + Offered(steps)
      ensures View() == MovedAll(old(View()), N(), steps)
      ensures old(stored) <= stored && |output| <= |stored| && len > 0 && OutputRight(output, stored, len)
      ensures Accounts(attempts, stored, cover)
    {
      hide Counters, Slots, Accounts, OutputRight, Fputs, Moved, MovedAll, Offered;
      CountersMean();
      StepsNone(View(), N());
      assert steps[..0] == [];
      for i := 0 to |steps|
        invariant Valid() && attempts == old(attempts) + Offered(steps[..i]) && old(stored) <= stored
        invariant rsvbuf.Length > 0 && View() == MovedAll(old(View()), N(), steps[..i])
      {
        CountersMean();
        StepsMore(old(View()), N(), steps, i);
        match steps[i]
        case Offer(msg) =>
          var _ := Logm(msg);
        case Go(behind) => Consume(behind);
      }
      assert steps[..|steps|] == steps;
      CountersMean();
    }
  }
}
