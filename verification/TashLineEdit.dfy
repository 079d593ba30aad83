/** The line editor of apps/shell/tash_main.c: raw bytes are read straight into the line
    buffer, in batches of any size, and edited there. */
module TashLineEdit {
  import opened CStrings

  const LINEBUFLEN: nat := 128
  const BS: char := '\U{0008}'
  const DEL: char := '\U{007F}'
  const CR: char := '\r'
  const LF: char := '\n'

  predicate Erases(c: char) { c == BS || c == DEL }

  // ---------------------------------------------------------------- what the line should be

  datatype Text = Text(line: string) | TooLong

  /** One typed character: erase, or append with CR read as LF. A line that fills the
      buffer is given up for good. */
  function Type(t: Text, c: char): Text {
    match t
    case TooLong => TooLong
    case Text(line) =>
      if Erases(c) then Text(if line == [] then [] else line[..|line| - 1])
      else if |line| + 1 >= LINEBUFLEN then TooLong
      else Text(line + [if c == CR then LF else c])
  }

  function Typed(t: Text, s: string): Text
    decreases |s|
  {
    if s == [] then t else Typed(Type(t, s[0]), s[1..])
  }

  /** However the input is cut, the pieces add up. */
  lemma {:induction false} TypedConcat(t: Text, a: string, b: string)
    ensures Typed(t, a + b) == Typed(Typed(t, a), b)
    decreases |a|
  {
    if a == [] {
      assert a + b == b;
    } else {
      assert (a + b)[1..] == a[1..] + b;
      TypedConcat(Type(t, a[0]), a[1..], b);
    }
  }

  /** Ordinary characters are appended as they are, CR and LF both as LF. */
  lemma {:induction false} TypedPlain(line: string, s: string)
    requires |line| + |s| < LINEBUFLEN && forall i | 0 <= i < |s| :: !Erases(s[i]) && s[i] != CR
    ensures Typed(Text(line), s) == Text(line + s)
    ensures |line| + |s| + 1 < LINEBUFLEN ==>
              Typed(Text(line), s + [CR]) == Text(line + s + [LF]) == Typed(Text(line), s + [LF])
    decreases |s|
  {
    if s == [] {
      assert line + s == line && s + [CR] == [CR] && s + [LF] == [LF];
      assert [CR][1..] == [] && [LF][1..] == [];
    } else {
      TypedPlain(line + [s[0]], s[1..]);
      assert line + [s[0]] + s[1..] == line + s;
      assert (s + [CR])[1..] == s[1..] + [CR] && (s + [LF])[1..] == s[1..] + [LF];
    }
  }

  /** Backspace and delete take back the last character typed, and nothing on an empty line. */
  lemma TypedBack(line: string, c: char, e: char)
    requires Erases(e) && !Erases(c) && |line| + 1 < LINEBUFLEN
    ensures Typed(Text(line), [c, e]) == Text(line) && Typed(Text([]), [e]) == Text([])
    ensures Erases('\U{0008}') && Erases('\U{007F}') && (c != '\U{0008}' && c != '\U{007F}')
  {
    assert [c, e][1..] == [e] && [e][1..] == [];
    assert Typed(Type(Text(line), c), [e]) == Type(Type(Text(line), c), e);
  }

  /** A line is given up exactly when a character would make it 128 long. */
  lemma TypedTooLong(t: Text, c: char)
    requires t.Text? && |t.line| < LINEBUFLEN
    ensures Type(t, c).TooLong? <==> !Erases(c) && |t.line| == 127
  {
  }

  lemma TypedNothing(t: Text)
    ensures Typed(t, []) == t
  {
  }

  lemma {:induction false} GivenUpStays(s: string)
    ensures Typed(TooLong, s) == TooLong
    decreases |s|
  {
    if s != [] { GivenUpStays(s[1..]); }
  }

  /** An erasing character is not directly followed by a NUL. */
  predicate NoErasedNul(s: string) {
    forall i | 0 <= i < |s| - 1 && Erases(s[i]) :: s[i + 1] != NUL
  }

  lemma FirstTwo(s: string)
    requires s != []
    ensures NoErasedNul(s) <==> (|s| > 1 && Erases(s[0]) ==> s[1] != NUL) && NoErasedNul(s[1..])
  {
    if (|s| > 1 && Erases(s[0]) ==> s[1] != NUL) && NoErasedNul(s[1..]) {
      forall i | 0 <= i < |s| - 1 && Erases(s[i]) ensures s[i + 1] != NUL {
        if i > 0 { assert s[1..][i - 1] == s[i] && s[1..][i] == s[i + 1]; }
      }
    }
  }

  // ---------------------------------------------------------------- what the code does

  function Back(pos: nat): nat { if pos > 0 then pos - 1 else 0 }

  /** The buffer after an erasing character at `pos`: what follows it moves up behind the character
      before the erased one, but only if the first of it is not a NUL. */
  function Erased(b: string, pos: nat): (r: string)
    requires pos < |b|
    ensures |r| == |b|
  {
    var moves, gap := pos + 1 < |b| && b[pos + 1] != NUL, pos + 1 - Back(pos);
    seq(|b|, i requires 0 <= i < |b| => if moves && Back(pos) <= i < |b| - gap then b[i + gap] else b[i])
  }

  /** The line buffer with the position reached in it, or a line that has filled it. */
  datatype Edited = Edited(b: string, pos: nat) | GivenUp {
    ghost predicate Valid() { Edited? ==> |b| == LINEBUFLEN && pos < LINEBUFLEN }

    /** The line as it stands. */
    function Line(): Text
      requires Valid()
    {
      if Edited? then Text(b[..pos]) else TooLong
    }
  }

  /** The body of the `for`: the character at `pos` is edited into the line before it. */
  function EditChar(b: string, pos: nat): (r: Edited)
    requires |b| == LINEBUFLEN && pos < LINEBUFLEN
    ensures r.Valid()
  {
    if Erases(b[pos]) then Edited(Erased(b, pos), Back(pos))
    else if pos + 1 >= LINEBUFLEN then GivenUp
    else Edited(b[pos := if b[pos] == CR then LF else b[pos]], pos + 1)
  }

  /** The `for` over `n` characters. */
  function EditBatch(b: string, pos: nat, n: nat): (r: Edited)
    requires |b| == LINEBUFLEN && pos < LINEBUFLEN
    ensures r.Valid()
    decreases n
  {
    if n == 0 then Edited(b, pos)
    else match EditChar(b, pos)
         case GivenUp => GivenUp
         case Edited(b', pos') => EditBatch(b', pos', n - 1)
  }

  // ---------------------------------------------------------------- when the two agree

  lemma ErasedKeepsRest(b: string, pos: nat, left: nat)
    requires 0 < left && pos + left <= |b| && (left > 1 ==> b[pos + 1] != NUL)
    ensures var r, p := Erased(b, pos), Back(pos);
            r[..p] == b[..p] && r[p..p + left - 1] == b[pos + 1..pos + left]
  {
  }

  /** One character with `left - 1` more of its batch behind it: the line changes as typed and the
      rest of the batch stays whole. */
  lemma CharTypes(b: string, pos: nat, left: nat)
    requires |b| == LINEBUFLEN && pos < LINEBUFLEN && 0 < left && pos + left <= LINEBUFLEN
    requires left > 1 && Erases(b[pos]) ==> b[pos + 1] != NUL
    ensures var r := EditChar(b, pos);
            r.Line() == Type(Text(b[..pos]), b[pos])
            && (r.Edited? ==> r.pos + left - 1 <= LINEBUFLEN && r.b[r.pos..r.pos + left - 1] == b[pos + 1..pos + left])
  {
    hide Erased;
    if Erases(b[pos]) {
      ErasedKeepsRest(b, pos, left);
      assert pos > 0 ==> b[..pos][..pos - 1] == b[..pos - 1];
    } else if pos + 1 < LINEBUFLEN {
      var r := EditChar(b, pos);
      assert r.b[..pos + 1] == b[..pos] + [if b[pos] == CR then LF else b[pos]];
    }
  }

  /** A batch without a NUL directly behind an erasing character edits the line as typed. */
  lemma {:induction false} BatchTypes(b: string, pos: nat, n: nat)
    requires |b| == LINEBUFLEN && pos < LINEBUFLEN && pos + n <= LINEBUFLEN && NoErasedNul(b[pos..pos + n])
    ensures EditBatch(b, pos, n).Line() == Typed(Text(b[..pos]), b[pos..pos + n])
    decreases n
  {
    if n > 0 {
      hide EditChar, NoErasedNul, Type;
      var s, r := b[pos..pos + n], EditChar(b, pos);
      FirstTwo(s);
      assert s[1..] == b[pos + 1..pos + n];
      CharTypes(b, pos, n);
      if r.Edited? {
        BatchTypes(r.b, r.pos, n - 1);
      } else {
        GivenUpStays(s[1..]);
      }
    }
  }

  /** Edited characters are neither erasing nor CR. */
  ghost predicate Clean(b: string, pos: nat)
    requires pos <= |b|
  {
    forall i | 0 <= i < pos :: !Erases(b[i]) && b[i] != CR
  }

  lemma CharKeepsClean(b: string, pos: nat)
    requires |b| == LINEBUFLEN && pos < LINEBUFLEN && Clean(b, pos)
    ensures var r := EditChar(b, pos); r.Edited? ==> Clean(r.b, r.pos)
  {
  }

  lemma BatchHead(b: string, pos: nat, n: nat)
    requires |b| == LINEBUFLEN && pos < LINEBUFLEN && n > 0
    ensures var r := EditChar(b, pos);
            EditBatch(b, pos, n) == if r.Edited? then EditBatch(r.b, r.pos, n - 1) else GivenUp
  {
  }

  /** At a NUL directly behind an erasing character nothing moves up, and the editor erases and takes up
      the same character in turn until the batch is used up. */
  lemma {:induction false} Stuck(b: string, pos: nat, n: nat)
    requires |b| == LINEBUFLEN && pos + 1 < LINEBUFLEN && Clean(b, pos) && Erases(b[pos]) && b[pos + 1] == NUL
    ensures EditBatch(b, pos, n) == Edited(b, if n % 2 == 0 then pos else Back(pos))
    decreases n
  {
    var p := Back(pos);
    assert Erased(b, pos) == b && EditChar(b, pos) == Edited(b, p);
    if n == 1 {
      assert EditBatch(b, p, 0) == Edited(b, p);
    } else if n > 1 {
      if pos > 0 { assert b[p := b[p]] == b && EditChar(b, p) == Edited(b, pos); }
      assert EditBatch(b, pos, n) == EditBatch(b, p, n - 1) == EditBatch(b, pos, n - 2);
      Stuck(b, pos, n - 2);
    }
  }

  /** Where the first NUL directly behind an erasing character makes the editor stick. */
  function FirstErasedNul(s: string): (j: nat)
    requires !NoErasedNul(s)
    ensures j + 1 < |s| && Erases(s[j]) && s[j + 1] == NUL
    ensures forall i | 0 <= i < j && Erases(s[i]) :: s[i + 1] != NUL
    decreases |s|
  {
    if Erases(s[0]) && |s| > 1 && s[1] == NUL then 0 else (FirstTwo(s); 1 + FirstErasedNul(s[1..]))
  }

  /** The line once it sticks at `j`: what was typed before, with or without the character to be
      erased, by whether an even or an odd number of characters is left. */
  function StuckAt(t: Text, s: string, j: nat): Text
    requires j < |s|
  {
    var before := Typed(t, s[..j]);
    if (|s| - j) % 2 == 0 then before else Type(before, s[j])
  }

  /** What the editor makes of a batch, whatever it holds. */
  function Edits(t: Text, s: string): Text {
    if NoErasedNul(s) then Typed(t, s) else StuckAt(t, s, FirstErasedNul(s))
  }

  lemma EditsNothing(t: Text)
    ensures Edits(t, []) == t
  {
  }

  lemma EditsHead(t: Text, s: string)
    requires s != [] && (|s| > 1 && Erases(s[0]) ==> s[1] != NUL)
    ensures Edits(t, s) == Edits(Type(t, s[0]), s[1..])
  {
    hide Typed, Type, NoErasedNul;
    FirstTwo(s);
    if NoErasedNul(s) {
      TypedHead(t, s);
    } else {
      FirstIsLater(s);
      StuckHead(t, s, FirstErasedNul(s));
    }
  }

  lemma TypedHead(t: Text, s: string)
    requires s != []
    ensures Typed(t, s) == Typed(Type(t, s[0]), s[1..])
  {
  }

  lemma FirstIsLater(s: string)
    requires !NoErasedNul(s) && (|s| > 1 && Erases(s[0]) ==> s[1] != NUL)
    ensures s != [] && !NoErasedNul(s[1..]) && FirstErasedNul(s) == 1 + FirstErasedNul(s[1..])
  {
    FirstTwo(s);
  }

  lemma StuckHead(t: Text, s: string, j: nat)
    requires 0 < j < |s|
    ensures StuckAt(t, s, j) == StuckAt(Type(t, s[0]), s[1..], j - 1)
  {
    hide Typed, Type;
    TypedHead(t, s[..j]);
    assert s[..j][1..] == s[1..][..j - 1];
  }

  lemma {:induction false} EditsGivenUp(s: string)
    ensures Edits(TooLong, s) == TooLong
  {
    GivenUpStays(s);
    if !NoErasedNul(s) { GivenUpStays(s[..FirstErasedNul(s)]); }
  }

  lemma EditsStuck(b: string, pos: nat, s: string)
    requires |b| == LINEBUFLEN && pos + |s| <= LINEBUFLEN && s == b[pos..pos + |s|] && Clean(b, pos)
    requires |s| > 1 && Erases(s[0]) && s[1] == NUL
    ensures EditBatch(b, pos, |s|).Line() == Edits(Text(b[..pos]), s)
  {
    Stuck(b, pos, |s|);
    assert !NoErasedNul(s) && FirstErasedNul(s) == 0 by { FirstTwo(s); }
    assert s[..0] == [];
    assert pos > 0 ==> b[..pos][..pos - 1] == b[..pos - 1];
  }

  /** The exact effect of any batch on the line. */
  lemma {:induction false} BatchExactly(b: string, pos: nat, s: string)
    requires |b| == LINEBUFLEN && pos < LINEBUFLEN && pos + |s| <= LINEBUFLEN && s == b[pos..pos + |s|] && Clean(b, pos)
    ensures var r := EditBatch(b, pos, |s|);
            r.Line() == Edits(Text(b[..pos]), s) && (r.Edited? ==> Clean(r.b, r.pos))
    decreases |s|
  {
    hide EditChar, NoErasedNul, Type, EditBatch, Edits, Clean;
    BatchKeepsClean(b, pos, |s|);
    if s == [] {
      EditsNothing(Text(b[..pos]));
      BatchDone(b, pos);
    } else if |s| > 1 && Erases(s[0]) && s[1] == NUL {
      EditsStuck(b, pos, s);
    } else {
      var r := EditChar(b, pos);
      CharTypes(b, pos, |s|);
      BatchHead(b, pos, |s|);
      CharKeepsClean(b, pos);
      EditsHead(Text(b[..pos]), s);
      if r.Edited? {
        BatchExactly(r.b, r.pos, s[1..]);
      } else {
        EditsGivenUp(s[1..]);
      }
    }
  }

  lemma {:induction false} BatchKeepsClean(b: string, pos: nat, n: nat)
    requires |b| == LINEBUFLEN && pos < LINEBUFLEN && Clean(b, pos)
    ensures var r := EditBatch(b, pos, n); r.Edited? ==> Clean(r.b, r.pos)
    decreases n
  {
    hide EditChar, Clean;
    if n > 0 {
      CharKeepsClean(b, pos);
      var r := EditChar(b, pos);
      if r.Edited? { BatchKeepsClean(r.b, r.pos, n - 1); }
    }
  }

  /** Typing the batch from `j` on leads back to the line at `j`, or to that line without its last
      character, depending on how many characters are left there. */
  predicate Returns(t: Text, s: string, j: nat)
    requires j < |s|
  {
    var line := Typed(t, s[..j]);
    Typed(line, s[j..]) == if (|s| - j) % 2 == 0 then line else Type(line, s[j])
  }

  lemma {:induction false} StuckIsTypedIff(t: Text, s: string, j: nat)
    requires j < |s|
    ensures StuckAt(t, s, j) == Typed(t, s) <==> Returns(t, s, j)
  {
    hide Typed, Type;
    assert s == s[..j] + s[j..];
    TypedConcat(t, s[..j], s[j..]);
  }

  /** The exact condition for every batch: the line comes out as typed exactly when the batch holds no
      NUL directly behind an erasing character, or what is typed from the first such place on
      happens to lead back to the line that stuck there. */
  lemma {:induction false} BatchTypesIff(b: string, pos: nat, s: string)
    requires |b| == LINEBUFLEN && pos < LINEBUFLEN && pos + |s| <= LINEBUFLEN && s == b[pos..pos + |s|] && Clean(b, pos)
    ensures var t := Text(b[..pos]);
            EditBatch(b, pos, |s|).Line() == Typed(t, s) <==> NoErasedNul(s) || Returns(t, s, FirstErasedNul(s))
  {
    hide EditBatch, NoErasedNul, Typed, Type, Clean, Erases, StuckAt, Returns;
    BatchExactly(b, pos, s);
    if !NoErasedNul(s) { StuckIsTypedIff(Text(b[..pos]), s, FirstErasedNul(s)); }
  }

  /** In particular, with the NUL at the end of the batch: only if the line was given up or the
      character to be erased is itself a NUL. */
  lemma {:induction false} LastErasedNul(b: string, pos: nat, s: string)
    requires |b| == LINEBUFLEN && pos + |s| <= LINEBUFLEN && s == b[pos..pos + |s|] && Clean(b, pos)
    requires !NoErasedNul(s) && FirstErasedNul(s) + 2 == |s|
    ensures var t := Text(b[..pos]);
            var line := Typed(t, s[..|s| - 2]);
            EditBatch(b, pos, |s|).Line() == Typed(t, s) <==> line.TooLong? || EndsInNul(line)
  {
    hide EditBatch, NoErasedNul, Clean;
    BatchTypesIff(b, pos, s);
    TypedFits(Text(b[..pos]), s[..|s| - 2]);
    TypeErasedNul(Typed(Text(b[..pos]), s[..|s| - 2]), s[|s| - 2..]);
  }

  lemma {:induction false} TypedFits(t: Text, s: string)
    requires t.Text? ==> |t.line| < LINEBUFLEN
    ensures Typed(t, s).Text? ==> |Typed(t, s).line| < LINEBUFLEN
    decreases |s|
  {
    if s != [] { TypedFits(Type(t, s[0]), s[1..]); }
  }

  predicate EndsInNul(t: Text) { t.Text? && t.line != [] && t.line[|t.line| - 1] == NUL }

  lemma TypeErasedNul(t: Text, s: string)
    requires |s| == 2 && Erases(s[0]) && s[1] == NUL && (t.Text? ==> |t.line| < LINEBUFLEN)
    ensures Typed(t, s) == t <==> t.TooLong? || EndsInNul(t)
  {
    assert s[1..] == [NUL] && s[1..][1..] == [];
    if t.Text? {
      var front := if t.line == [] then [] else t.line[..|t.line| - 1];
      assert Typed(t, s) == Typed(Text(front), [NUL]) == Text(front + [NUL]);
      assert t.line != [] ==> t.line == front + [t.line[|t.line| - 1]];
    } else {
      GivenUpStays(s);
    }
  }

  // ---------------------------------------------------------------- reading a line

  /** The buffer with `bytes` read into it from `pos` on. */
  function Filled(b: string, pos: nat, bytes: string): (r: string)
    requires pos + |bytes| <= |b|
    ensures |r| == |b|
  {
    b[..pos] + bytes + b[pos + |bytes|..]
  }

  function Flat(batches: seq<string>): string {
    if batches == [] then [] else Flat(batches[..|batches| - 1]) + batches[|batches| - 1]
  }

  /** What is in the buffer after reading `batches`, one after the other, into an empty line. */
  ghost function ReadAll(b: string, batches: seq<string>): (r: Edited)
    requires |b| == LINEBUFLEN
    ensures r.Valid()
  {
    if batches == [] then Edited(b, 0)
    else
      var e, batch := ReadAll(b, batches[..|batches| - 1]), batches[|batches| - 1];
      if e.GivenUp? || e.pos + |batch| > LINEBUFLEN then GivenUp
      else EditBatch(Filled(e.b, e.pos, batch), e.pos, |batch|)
  }

  /** Every batch fits behind the line it finds. */
  ghost predicate Fit(b: string, batches: seq<string>)
    requires |b| == LINEBUFLEN
  {
    batches == [] ||
    var e := ReadAll(b, batches[..|batches| - 1]);
    Fit(b, batches[..|batches| - 1]) && e.Edited? && e.pos + |batches[|batches| - 1]| <= LINEBUFLEN
  }

  lemma ReadMore(b: string, batches: seq<string>, batch: string)
    requires |b| == LINEBUFLEN && Fit(b, batches)
    requires var e := ReadAll(b, batches); e.Edited? && e.pos + |batch| <= LINEBUFLEN
    ensures Fit(b, batches + [batch]) && Flat(batches + [batch]) == Flat(batches) + batch
    ensures var e := ReadAll(b, batches);
            ReadAll(b, batches + [batch]) == EditBatch(Filled(e.b, e.pos, batch), e.pos, |batch|)
  {
    assert (batches + [batch])[..|batches|] == batches;
  }

  /** The batches edited into an empty line, one after the other. */
  function EditsAll(batches: seq<string>): Text {
    if batches == [] then Text([]) else Edits(EditsAll(batches[..|batches| - 1]), batches[|batches| - 1])
  }

  /** However the input is cut and whatever it holds, this is the line in the buffer. */
  lemma {:induction false} ReadExactly(b: string, batches: seq<string>)
    requires |b| == LINEBUFLEN && Fit(b, batches)
    ensures var r := ReadAll(b, batches); r.Line() == EditsAll(batches) && (r.Edited? ==> Clean(r.b, r.pos))
    decreases |batches|
  {
    hide EditBatch, NoErasedNul, Edits;
    if batches != [] {
      var front, batch := batches[..|batches| - 1], batches[|batches| - 1];
      ReadExactly(b, front);
      var e := ReadAll(b, front);
      var f := Filled(e.b, e.pos, batch);
      assert f[..e.pos] == e.b[..e.pos] && f[e.pos..e.pos + |batch|] == batch;
      assert Clean(f, e.pos) by { assert forall i | 0 <= i < e.pos :: f[i] == e.b[i]; }
      BatchExactly(f, e.pos, batch);
    }
  }

  /** However the input is cut into batches, if no batch holds a NUL directly behind an erasing
      character, the line is the input, edited as typed. */
  lemma {:induction false} ReadTypes(b: string, batches: seq<string>)
    requires |b| == LINEBUFLEN && Fit(b, batches)
    requires AllFine(batches)
    ensures ReadAll(b, batches).Line() == Typed(Text([]), Flat(batches))
  {
    hide ReadAll, Fit, NoErasedNul;
    ReadExactly(b, batches);
    EditsTyped(batches);
  }

  lemma {:induction false} EditsTyped(batches: seq<string>)
    requires AllFine(batches)
    ensures EditsAll(batches) == Typed(Text([]), Flat(batches))
    decreases |batches|
  {
    hide NoErasedNul, StuckAt;
    if batches != [] {
      var front := batches[..|batches| - 1];
      EditsTyped(front);
      TypedConcat(Text([]), Flat(front), batches[|batches| - 1]);
    }
  }

  /** No batch holds a NUL directly behind an erasing character. */
  predicate AllFine(batches: seq<string>) {
    forall k | 0 <= k < |batches| :: NoErasedNul(batches[k])
  }

  /** A condition on the input alone: a NUL directly behind no erasing character, however it is cut. */
  lemma {:induction false} InputDecides(b: string, batches: seq<string>)
    requires |b| == LINEBUFLEN && Fit(b, batches) && NoErasedNul(Flat(batches))
    ensures AllFine(batches)
    ensures ReadAll(b, batches).Line() == Typed(Text([]), Flat(batches))
  {
    hide ReadAll, Typed, Fit;
    PiecesAreFine(batches);
    ReadTypes(b, batches);
  }

  lemma {:induction false} PiecesAreFine(batches: seq<string>)
    requires NoErasedNul(Flat(batches))
    ensures AllFine(batches)
    decreases |batches|
  {
    if batches != [] {
      var front, last := batches[..|batches| - 1], batches[|batches| - 1];
      var s, n := Flat(batches), |Flat(front)|;
      assert NoErasedNul(Flat(front)) by { assert forall i | 0 <= i < n :: Flat(front)[i] == s[i]; }
      assert NoErasedNul(last) by { assert forall i | 0 <= i < |last| :: last[i] == s[n + i]; }
      PiecesAreFine(front);
    }
  }

  /** So on such an input the cut does not matter; on others it does. Here the same four characters
      give two different lines. */
  lemma CutMatters(b: string)
    requires |b| == LINEBUFLEN
    ensures var input := ['a', 'b', BS, NUL];
            Fit(b, [input]) && Fit(b, [input[..3], input[3..]])
            && ReadAll(b, [input]).Line() == Text("ab")
            && ReadAll(b, [input[..3], input[3..]]).Line() == Text(['a', NUL])
  {
    hide EditBatch, ReadAll, Fit, Filled, Flat;
    var input := ['a', 'b', BS, NUL];
    assert input[..3] == ['a', 'b', BS] && input[3..] == [NUL];
    ReadNothing(b);
    ReadMore(b, [], input);
    assert [] + [input] == [input];
    OneBatch(b);
    ReadMore(b, [], input[..3]);
    assert [] + [input[..3]] == [input[..3]];
    TwoBatches(b);
    ReadMore(b, [input[..3]], input[3..]);
    assert [input[..3]] + [input[3..]] == [input[..3], input[3..]];
  }

  /** Behind the NUL the rest of the batch is lost, whatever it holds. */
  lemma RestIsLost(b: string, rest: string)
    requires |b| == LINEBUFLEN && |rest| + 4 <= LINEBUFLEN
    ensures EditBatch(Filled(b, 0, ['a', 'b', BS, NUL] + rest), 0, |rest| + 4).Line() ==
            Text(if |rest| % 2 == 0 then "ab" else "a")
  {
    hide EditBatch, Filled;
    var f := Filled(b, 0, ['a', 'b', BS, NUL] + rest);
    FilledFour(b, rest);
    AppendFirst(f, 0, |rest| + 4);
    AppendFirst(f, 1, |rest| + 3);
    Stuck(f, 2, |rest| + 2);
  }

  lemma FilledFour(b: string, rest: string)
    requires |rest| + 4 <= |b|
    ensures var f := Filled(b, 0, ['a', 'b', BS, NUL] + rest);
            f[0] == 'a' && f[1] == 'b' && f[2] == BS && f[3] == NUL && f[..2] == "ab" && f[..1] == "a"
  {
    var s := ['a', 'b', BS, NUL] + rest;
    FilledFront(b, s);
    assert s[0] == 'a' && s[1] == 'b' && s[2] == BS && s[3] == NUL;
  }

  lemma OneBatch(b: string)
    requires |b| == LINEBUFLEN
    ensures EditBatch(Filled(b, 0, ['a', 'b', BS, NUL]), 0, 4).Line() == Text("ab")
  {
    hide EditBatch, Filled;
    RestIsLost(b, []);
    assert ['a', 'b', BS, NUL] + [] == ['a', 'b', BS, NUL];
  }

  lemma FilledFront(b: string, bytes: string)
    requires |bytes| <= |b|
    ensures forall k | 0 <= k < |bytes| :: Filled(b, 0, bytes)[k] == bytes[k]
  {
  }

  lemma BatchDone(b: string, pos: nat)
    requires |b| == LINEBUFLEN && pos < LINEBUFLEN
    ensures EditBatch(b, pos, 0) == Edited(b, pos)
  {
  }

  lemma AppendFirst(f: string, pos: nat, n: nat)
    requires |f| == LINEBUFLEN && pos + 1 < LINEBUFLEN && n > 0 && !Erases(f[pos]) && f[pos] != CR
    ensures EditBatch(f, pos, n) == EditBatch(f, pos + 1, n - 1)
  {
    assert f[pos := f[pos]] == f;
  }

  lemma TwoBatches(b: string)
    requires |b| == LINEBUFLEN
    ensures var e := EditBatch(Filled(b, 0, ['a', 'b', BS]), 0, 3);
            e.Edited? && e.pos == 1 && EditBatch(Filled(e.b, 1, [NUL]), 1, 1).Line() == Text(['a', NUL])
  {
    hide EditBatch;
    var f := Filled(b, 0, ['a', 'b', BS]);
    FilledFront(b, ['a', 'b', BS]);
    AppendFirst(f, 0, 3);
    AppendFirst(f, 1, 2);
    var e := EditChar(f, 2);
    BatchHead(f, 2, 1);
    BatchDone(e.b, 1);
    var g := Filled(e.b, 1, [NUL]);
    AppendFirst(g, 1, 1);
    BatchDone(g, 2);
    assert g[..2] == ['a', NUL];
  }

  /** One read from the console: `size` bytes become available, or the read fails. */
  datatype ReadEvent = Bytes(size: nat) | ReadError

  /** `Astray`: the line was empty, and the byte in front of the buffer passed for its LF. */
  datatype Outcome = Done(line: string) | Dropped | Failed | Waiting | Astray

  class Editor {
    const buffer: array<char>
    var pos: nat

    ghost predicate Valid()
      reads this
    {
      buffer.Length == LINEBUFLEN && pos < LINEBUFLEN
    }

    ghost function View(): Edited
      reads this, buffer
    {
      Edited(buffer[..], pos)
    }

    constructor ()
      ensures Valid() && fresh(buffer) && pos == 0
    {
      buffer := new char[LINEBUFLEN](_ => NUL);
      pos := 0;
    }

    /** The branch for backspace and delete. */
    method Erase()
      requires Valid()
      modifies this, buffer
      ensures Valid() && pos == Back(old(pos)) && buffer[..] == Erased(old(buffer[..]), old(pos))
    {
      ghost var b, p := buffer[..], pos;
      var validCharPos := pos + 1;
      if pos > 0 {
        pos := pos - 1;
      }
      if validCharPos < LINEBUFLEN && buffer[validCharPos] != NUL {
        forall i | pos <= i < pos + LINEBUFLEN - validCharPos {
          buffer[i] := buffer[i + (validCharPos - pos)];
        }
      }
      assert buffer[..] == Erased(b, p);
    }

    /** The body of the `for`; true when the line has filled the buffer. */
    method ProcessChar() returns (tooLong: bool)
      requires Valid()
      modifies this, buffer
      ensures tooLong == EditChar(old(buffer[..]), old(pos)).GivenUp? && (tooLong ==> buffer[0] == NUL)
      ensures !tooLong ==> Valid() && View() == EditChar(old(buffer[..]), old(pos))
    {
      hide Erased;
      ghost var b := buffer[..];
      assert b[pos] == buffer[pos];
      if buffer[pos] == BS || buffer[pos] == DEL {
        Erase();
        tooLong := false;
      } else {
        if buffer[pos] == CR {
          buffer[pos] := LF;
        }
        assert buffer[..] == b[pos := if b[pos] == CR then LF else b[pos]];
        pos := pos + 1;
        tooLong := pos >= LINEBUFLEN;
        if tooLong {
          buffer[0] := NUL;
        }
      }
    }

    /** The `for` over one batch of `nbytes` characters already stored from `pos` on. */
    method Process(nbytes: nat) returns (tooLong: bool)
      requires Valid()
      modifies this, buffer
      ensures tooLong == EditBatch(old(buffer[..]), old(pos), nbytes).GivenUp? && (tooLong ==> buffer[0] == NUL)
      ensures !tooLong ==> Valid() && View() == EditBatch(old(buffer[..]), old(pos), nbytes)
    {
      hide EditChar;
      var charIdx := 0;
      while charIdx < nbytes
        invariant charIdx <= nbytes && Valid()
        invariant EditBatch(buffer[..], pos, nbytes - charIdx) == EditBatch(old(buffer[..]), old(pos), nbytes)
      {
        tooLong := ProcessChar();
        if tooLong {
          return true;
        }
        charIdx := charIdx + 1;
      }
      return false;
    }

    /** What read() leaves in the buffer. */
    method Store(bytes: string)
      requires Valid() && pos + |bytes| <= LINEBUFLEN
      modifies buffer
      ensures buffer[..] == Filled(old(buffer[..]), pos, bytes)
    {
      forall k | 0 <= k < |bytes| {
        buffer[pos + k] := bytes[k];
      }
      assert buffer[..] == Filled(old(buffer[..]), pos, bytes);
    }

    /** One read and the `for` over what it brought. */
    method Feed(batch: string, ghost b: string, ghost batches: seq<string>) returns (tooLong: bool)
      requires |b| == LINEBUFLEN && Fit(b, batches)
      requires Valid() && pos + |batch| <= LINEBUFLEN && View() == ReadAll(b, batches)
      modifies this, buffer
      ensures Fit(b, batches + [batch]) && Flat(batches + [batch]) == Flat(batches) + batch
      ensures tooLong == ReadAll(b, batches + [batch]).GivenUp? && (tooLong ==> buffer[0] == NUL)
      ensures !tooLong ==> Valid() && View() == ReadAll(b, batches + [batch])
    {
      hide EditBatch, ReadAll, Fit, Flat, Filled;
      ReadMore(b, batches, batch);
      Store(batch);
      tooLong := Process(|batch|);
    }

    /** One turn of the `do`: a read, the `for` over what it brought, and the test for the end of the line;
        `Waiting` means another turn. */
    method Turn(batch: string, ahead: char, ghost b: string, ghost batches: seq<string>) returns (r: Outcome)
      requires |b| == LINEBUFLEN && Fit(b, batches)
      requires Valid() && pos + |batch| <= LINEBUFLEN && View() == ReadAll(b, batches)
      modifies this, buffer
      ensures Fit(b, batches + [batch]) && Flat(batches + [batch]) == Flat(batches) + batch
      ensures !r.Failed? && Reads(r, EditsAll(batches + [batch]), ahead)
      ensures match r
              case Done(line) => Valid() && buffer[..pos] == line && buffer[pos] == NUL
              case Dropped => buffer[0] == NUL
              case Astray => pos == 0
              case _ => Valid() && View() == ReadAll(b, batches + [batch]) && !Ends(EditsAll(batches + [batch]), ahead)
    {
      hide Typed, AllFine, EditsAll, ReadAll, Fit, Flat;
      var tooLong := Feed(batch, b, batches);
      ReadMeans(b, batches + [batch]);
      if tooLong {
        return Dropped;
      }
      if pos == 0 && ahead == LF {
        return Astray;
      }
      if pos > 0 && buffer[pos - 1] == LF {
        ghost var line := buffer[..pos];
        buffer[pos - 1] := NUL;
        pos := pos - 1;
        assert line == buffer[..pos] + [LF];
        return Done(buffer[..pos]);
      }
      return Waiting;
    }

    /** tash_read_input_line on an arbitrary input and schedule of reads: each takes what is available
        and fits. `batches` are the pieces the input was read in, `ahead` is the byte in front of the
        buffer, which is taken for the end of an empty line. The line is always what the editor makes
        of the batches; where none of them holds a NUL directly behind an erasing character it is
        the input so far, edited as typed, and the schedule matters only for when it stops. */
    method ReadInputLine(input: string, schedule: seq<ReadEvent>, ahead: char)
      returns (r: Outcome, used: nat, ghost batches: seq<string>)
      requires Valid() && pos == 0
      modifies this, buffer
      ensures used <= |input| && Flat(batches) == input[..used] && Fit(old(buffer[..]), batches)
      ensures Reads(r, EditsAll(batches), ahead)
      ensures AllFine(batches) ==>
                Reads(r, Typed(Text([]), input[..used]), ahead)
      ensures r.Failed? || r.Waiting? ==> Valid() && View() == ReadAll(old(buffer[..]), batches)
      ensures (r.Failed? || r.Waiting?) && batches != [] ==> !Ends(EditsAll(batches), ahead)
      ensures Scheduled(old(buffer[..]), |input|, schedule, batches)
      ensures match r
              case Done(line) => Valid() && buffer[..pos] == line && buffer[pos] == NUL
              case Dropped => buffer[0] == NUL
              case Failed => |batches| < |schedule| && schedule[|batches|].ReadError?
              case Waiting => |batches| == |schedule|
              case Astray => pos == 0
    {
      hide Typed, AllFine, EditsAll, ReadAll, Fit, Flat, Scheduled, Ends;
      ghost var b := buffer[..];
      batches, used := [], 0;
      ReadNothing(b);
      ScheduledNone(b, |input|, schedule);
      assert input[..0] == [];
      var i := 0;
      while i < |schedule| && schedule[i].Bytes?
        invariant i <= |schedule| && used <= |input| && Valid()
        invariant Flat(batches) == input[..used] && Fit(b, batches) && View() == ReadAll(b, batches)
        invariant batches != [] ==> !Ends(EditsAll(batches), ahead)
        invariant |batches| == i && Scheduled(b, |input|, schedule, batches)
      {
        var nbytes := schedule[i].size;
        if nbytes > LINEBUFLEN - pos {
          nbytes := LINEBUFLEN - pos;
        }
        if nbytes > |input| - used {
          nbytes := |input| - used;
        }
        var batch := input[used..used + nbytes];
        assert input[..used + nbytes] == input[..used] + batch;
        ScheduledMore(b, |input|, schedule, batches, batch);
        r := Turn(batch, ahead, b, batches);
        used := used + nbytes;
        batches := batches + [batch];
        if !r.Waiting? {
          ReadMeans(b, batches);
          return;
        }
        i := i + 1;
      }
      ReadMeans(b, batches);
      return if i < |schedule| then Failed else Waiting, used, batches;
    }
  }

  lemma ReadNothing(b: string)
    requires |b| == LINEBUFLEN
    ensures ReadAll(b, []) == Edited(b, 0) && Fit(b, []) && Flat([]) == []
  {
  }

  function Least(a: nat, b: nat): nat { if a < b then a else b }

  /** Each read takes all that is available, as far as the input goes and the buffer has room. */
  ghost predicate Scheduled(b: string, size: nat, schedule: seq<ReadEvent>, batches: seq<string>)
    requires |b| == LINEBUFLEN
  {
    batches == [] ||
    var i := |batches| - 1;
    var e, used := ReadAll(b, batches[..i]), |Flat(batches[..i])|;
    && i < |schedule| && schedule[i].Bytes? && e.Edited? && used <= size
    && |batches[i]| == Least(schedule[i].size, Least(LINEBUFLEN - e.pos, size - used))
    && Scheduled(b, size, schedule, batches[..i])
  }

  lemma ScheduledNone(b: string, size: nat, schedule: seq<ReadEvent>)
    requires |b| == LINEBUFLEN
    ensures Scheduled(b, size, schedule, [])
  {
  }

  lemma ScheduledMore(b: string, size: nat, schedule: seq<ReadEvent>, batches: seq<string>, batch: string)
    requires |b| == LINEBUFLEN && Scheduled(b, size, schedule, batches) && |batches| < |schedule|
    requires var e, used := ReadAll(b, batches), |Flat(batches)|;
             && schedule[|batches|].Bytes? && e.Edited? && used <= size
             && |batch| == Least(schedule[|batches|].size, Least(LINEBUFLEN - e.pos, size - used))
    ensures Scheduled(b, size, schedule, batches + [batch])
  {
    assert (batches + [batch])[..|batches|] == batches;
  }

  lemma ReadMeans(b: string, batches: seq<string>)
    requires |b| == LINEBUFLEN && Fit(b, batches)
    ensures ReadAll(b, batches).Line() == EditsAll(batches)
    ensures AllFine(batches) ==> EditsAll(batches) == Typed(Text([]), Flat(batches))
  {
    hide ReadAll, Fit, NoErasedNul;
    ReadExactly(b, batches);
    if AllFine(batches) { EditsTyped(batches); }
  }

  /** The test at the end of the `do`: the byte before the position is an LF. */
  predicate Ends(t: Text, ahead: char) {
    t.Text? && (if t.line == [] then ahead else t.line[|t.line| - 1]) == LF
  }

  /** What the outcome says about the edited line: it ended with LF, or filled the buffer, or is
      not finished, or was empty with an LF in front of the buffer. */
  predicate Reads(r: Outcome, t: Text, ahead: char) {
    match r
    case Done(line) => t == Text(line + [LF])
    case Dropped => t == TooLong
    case Failed => t.Text?
    case Waiting => t.Text?
    case Astray => t == Text([]) && ahead == LF
  }
}
