/** The in-place parser of apps/shell/tash_main.c: it cuts a NUL-terminated line into C strings
    by writing NULs and closing up removed characters, and is proved to hand out exactly the
    argument lists of TashParse. */
module TashTokenizer {
  import opened CStrings
  import opened TashParse

  datatype InputState = InVoid | InWord | InQuote

  /** `b` with the character at `r` taken out of the string that ends at `n`. */
  ghost function Removed(b: seq<char>, r: nat, n: nat): (b': seq<char>)
    requires r < n < |b|
    ensures |b'| == |b|
    ensures forall i | 0 <= i < |b| :: b'[i] == if r <= i < n then b[i + 1] else b[i]
  {
    b[..r] + b[r + 1..n + 1] + b[n..]
  }

  lemma RemovedBefore(b: seq<char>, st: nat, pos: nat, n: nat)
    requires st < pos < n && StringAt(b, st, n - st) && b[pos - 1] == '\\' && b[pos] == '"'
    ensures var b' := Removed(b, pos - 1, n);
            && |b'| == |b| && b'[..st] == b[..st] && StringAt(b', st, n - 1 - st)
            && b'[st..pos] == Unescaped(b[st..pos]) && b'[pos..n - 1] == b[pos + 1..n]
  {
  }

  lemma RemovedAt(b: seq<char>, st: nat, pos: nat, n: nat)
    requires st <= pos < n && StringAt(b, st, n - st)
    ensures var b' := Removed(b, pos, n);
            && |b'| == |b| && b'[..st] == b[..st] && StringAt(b', st, n - 1 - st)
            && b'[st..pos] == b[st..pos] && b'[pos..n - 1] == b[pos + 1..n]
  {
  }

  method Strlen(buff: array<char>, p: nat, ghost n: nat) returns (len: nat)
    requires StringAt(buff[..], p, n)
    ensures len == n
  {
    len := 0;
    while buff[p + len] != NUL
      invariant len <= n
      decreases n - len
    {
      len := len + 1;
    }
  }

  /** tash_remove_char. */
  method RemoveChar(buff: array<char>, r: nat, ghost n: nat)
    requires r < n && StringAt(buff[..], r + 1, n - r - 1)
    modifies buff
    ensures buff[..] == Removed(old(buff[..]), r, n)
  {
    var remaining := Strlen(buff, r + 1, n - r - 1);
    remaining := remaining + 1;
    forall i | 0 <= i < remaining {
      buff[r + i] := buff[r + 1 + i];
    }
  }

  /** The C strings at `argv` are `args`, all of them ended before `lo`. */
  ghost predicate Holds(b: seq<char>, argv: seq<int>, args: seq<string>, lo: int)
    requires |args| <= |argv|
  {
    forall k | 0 <= k < |args| :: HoldsOne(b, argv[k], args[k], lo)
  }

  ghost predicate HoldsOne(b: seq<char>, p: int, arg: string, lo: int) {
    StringAt(b, p, |arg|) && p + |arg| < lo && b[p..p + |arg|] == arg
  }

  /** Changes from `lo` on leave the finished arguments alone. */
  lemma HoldsFrame(b: seq<char>, b': seq<char>, argv: seq<int>, argv': seq<int>, args: seq<string>, lo: int, hi: int)
    requires |args| <= |argv| && |args| <= |argv'| && Holds(b, argv, args, lo) && lo <= hi
    requires |b'| == |b| && 0 <= lo <= |b| && b'[..lo] == b[..lo]
    requires forall k | 0 <= k < |args| :: argv'[k] == argv[k]
    ensures Holds(b', argv', args, hi)
  {
    forall k | 0 <= k < |args| ensures HoldsOne(b', argv'[k], args[k], hi) {
      assert HoldsOne(b, argv[k], args[k], lo);
      assert forall i | 0 <= i < lo :: b'[i] == b'[..lo][i] == b[..lo][i] == b[i];
      assert b'[argv[k]..argv[k] + |args[k]|] == b[argv[k]..argv[k] + |args[k]|];
    }
  }

  lemma HoldsMore(b: seq<char>, argv: seq<int>, args: seq<string>, arg: string, lo: int)
    requires |args| < |argv| && Holds(b, argv, args, lo) && HoldsOne(b, argv[|args|], arg, lo)
    ensures Holds(b, argv, args + [arg], lo)
  {
    forall k | 0 <= k < |args + [arg]| ensures HoldsOne(b, argv[k], (args + [arg])[k], lo) {
      assert k < |args| ==> HoldsOne(b, argv[k], args[k], lo);
    }
  }

  /** The variables of tash_execute_cmdline while it scans one command. `n` is where the line
      ends, `done` are the finished arguments, `goal` is the command to be found. */
  class Scanner {
    const buff: array<char>
    const argv: array<int>
    var pos: nat
    var argc: nat
    var state: InputState
    var isNext: bool
    ghost var n: nat
    ghost var done: seq<string>
    ghost var goal: Command

    ghost predicate Bounds()
      reads this, buff
    {
      argv.Length == TOKEN_MAX && pos <= n && StringAt(buff[..], pos, n - pos)
    }

    ghost function Left(): string
      requires Bounds()
      reads this, buff
    {
      buff[..][pos..n]
    }

    /** Between tokens. */
    ghost predicate Between()
      requires Bounds()
      reads this, buff, argv
    {
      && argc == |done| < TOKEN_MAX - 1 && Holds(buff[..], argv[..], done, pos)
      && goal == Rest(done, Left())
    }

    /** Where the current token starts. */
    ghost predicate TokenFrom(st: nat)
      requires Bounds()
      reads this, buff, argv
    {
      && 0 < argc == |done| + 1 < TOKEN_MAX && argv[argc - 1] == st
      && st <= pos && NulFreeIn(buff[..], st, n) && (st == pos ==> st > 0 && buff[st - 1] == '"')
      && Holds(buff[..], argv[..], done, st)
    }

    ghost predicate Inside()
      requires Bounds()
      reads this, buff, argv
    {
      argc > 0 && argc < TOKEN_MAX &&
      var st := argv[argc - 1];
      st >= 0 && TokenFrom(st) &&
      if argc < TOKEN_MAX - 1
      then goal == Finish(done, if state.InWord? then Word(buff[..][st..pos], Left())
                                else Quoted(buff[..][st..pos], Left()))
      else goal == if state.InWord? then Command(done + [buff[..][st..n]], [], false) else Nothing
    }

    /** A separator has been found. */
    ghost predicate AtEnd()
      requires Bounds()
      reads this, buff, argv
    {
      && argc == |done| < TOKEN_MAX && Holds(buff[..], argv[..], done, pos) && !state.InQuote?
      && goal == Command(done, Left(), true)
    }

    ghost predicate Valid()
      reads this, buff, argv
    {
      Bounds() && if isNext then AtEnd() else if state.InVoid? then Between() else Inside()
    }

    ghost predicate Scanning()
      reads this, buff, argv
    {
      Valid() && !isNext && pos < n && argc < TOKEN_MAX - 1
    }

    method SkipChar()
      requires Scanning() && state.InVoid? && buff[pos] == ' '
      modifies this`pos
      ensures Valid() && n - pos < old(n - pos)
    {
      ghost var s := Left();
      HoldsFrame(buff[..], buff[..], argv[..], argv[..], done, pos, pos + 1);
      pos := pos + 1;
      assert Left() == s[1..];
    }

    method StartComment()
      requires Scanning() && state.InVoid? && buff[pos] == '#'
      modifies this`pos, this`n, buff
      ensures Valid() && n - pos < old(n - pos)
    {
      ghost var b := buff[..];
      buff[pos] := NUL;
      buff[pos + 1] := NUL;
      HoldsFrame(b, buff[..], argv[..], argv[..], done, pos, pos + 1);
      pos := pos + 1;
      n := pos;
      assert Left() == [];
    }

    method StartQuoted()
      requires Scanning() && state.InVoid? && buff[pos] == '"'
      modifies this`pos, this`state, this`argc, argv
      ensures Valid() && n - pos < old(n - pos)
    {
      ghost var s, a := Left(), argv[..];
      state := InQuote;
      argv[argc] := pos + 1;
      HoldsFrame(buff[..], buff[..], a, argv[..], done, pos, pos + 1);
      argc := argc + 1;
      pos := pos + 1;
      assert Left() == s[1..] && buff[..][pos..pos] == [];
    }

    method StartWord()
      requires Scanning() && state.InVoid? && buff[pos] !in {' ', '#', '"', ';', '\n'}
      modifies this`pos, this`state, this`argc, argv
      ensures Valid() && n - pos < old(n - pos)
    {
      ghost var s, a := Left(), argv[..];
      state := InWord;
      argv[argc] := pos;
      HoldsFrame(buff[..], buff[..], a, argv[..], done, pos, pos);
      argc := argc + 1;
      pos := pos + 1;
      assert Left() == s[1..] && buff[..][pos - 1..pos] == [s[0]] && buff[..][pos - 1..n] == s;
    }

    method EndVoid()
      requires Scanning() && state.InVoid? && EndsCommand(buff[pos])
      modifies this`pos, this`isNext, buff
      ensures Valid() && n - pos < old(n - pos)
    {
      ghost var s, b := Left(), buff[..];
      isNext := true;
      buff[pos] := NUL;
      HoldsFrame(b, buff[..], argv[..], argv[..], done, pos, pos + 1);
      pos := pos + 1;
      assert Left() == s[1..];
    }

    /** Case IN_VOID. */
    method StepVoid()
      requires Scanning() && state.InVoid?
      modifies this, buff, argv
      ensures Valid() && n - pos < old(n - pos) && goal == old(goal)
    {
      var c := buff[pos];
      if c == ' ' {
        SkipChar();
      } else if c == '#' {
        StartComment();
      } else if c == '"' {
        StartQuoted();
      } else if c == '\n' || c == ';' {
        EndVoid();
      } else {
        StartWord();
      }
    }

    /** An ordinary character of the current token. */
    method KeepChar()
      requires Scanning() && !state.InVoid? && buff[pos] != '"'
      requires state.InWord? ==> buff[pos] != ' ' && !EndsCommand(buff[pos])
      modifies this`pos
      ensures Valid() && n - pos < old(n - pos)
    {
      ghost var st, s := argv[argc - 1], Left();
      assert buff[..][st..pos + 1] == buff[..][st..pos] + [s[0]];
      pos := pos + 1;
      assert Left() == s[1..];
    }

    /** The layout of the current token: it runs from `st` to the end of the line. */
    ghost predicate Laid(st: int)
      reads this, buff, argv
    {
      && argv.Length == TOKEN_MAX && 0 < argc == |done| + 1 < TOKEN_MAX - 1 && argv[argc - 1] == st
      && 0 <= st <= pos <= n && StringAt(buff[..], st, n - st) && (st == pos ==> st > 0 && buff[st - 1] == '"')
      && Holds(buff[..], argv[..], done, st)
    }

    lemma Opened()
      requires Scanning() && !state.InVoid?
      ensures argv.Length == TOKEN_MAX && argc > 0 && Laid(argv[argc - 1]) && pos < n && !isNext
    {
      hide Holds;
    }

    lemma Reopened(st: int)
      requires Laid(st) && !isNext && !state.InVoid?
      requires goal == Finish(done, if state.InWord? then Word(buff[..][st..pos], buff[..][pos..n])
                                    else Quoted(buff[..][st..pos], buff[..][pos..n]))
      ensures Valid()
    {
      hide Holds, Finish, Word, Quoted;
    }

    /** A quote behind a backslash: the backslash goes, the quote stays. */
    method DropBackslash()
      requires Scanning() && !state.InVoid? && buff[pos] == '"' && pos > 0 && buff[pos - 1] == '\\'
      modifies this`n, buff
      ensures Valid() && n - pos < old(n - pos)
    {
      hide Word, Quoted, Holds, Finish, Removed, Unescaped, EndsInBackslash, Valid, Scanning, NulFreeIn;
      Opened();
      ghost var st, b := argv[argc - 1], buff[..];
      TokenStep(st);
      assert pos > st;
      StringAtLater(b, st, pos, n);
      RemoveChar(buff, pos - 1, n);
      RemovedBefore(b, st, pos, n);
      HoldsFrame(b, buff[..], argv[..], argv[..], done, st, st);
      n := n - 1;
      Reopened(st);
    }

    /** A quote that opens or closes: it goes, and the state flips. */
    method FlipQuote()
      requires Scanning() && !state.InVoid? && buff[pos] == '"' && pos > 0 && buff[pos - 1] != '\\'
      modifies this`n, this`state, buff
      ensures Valid() && n - pos < old(n - pos)
    {
      hide Word, Quoted, Holds, Finish, Removed, Unescaped, EndsInBackslash, Valid, Scanning, NulFreeIn;
      Opened();
      ghost var st, b := argv[argc - 1], buff[..];
      TokenStep(st);
      StringAtLater(b, st, pos + 1, n);
      RemoveChar(buff, pos, n);
      RemovedAt(b, st, pos, n);
      HoldsFrame(b, buff[..], argv[..], argv[..], done, st, st);
      n := n - 1;
      state := if state.InWord? then InQuote else InWord;
      Reopened(st);
    }

    /** What the grammar makes of a quote at the current position. */
    lemma TokenStep(st: nat)
      requires Scanning() && !state.InVoid? && buff[pos] == '"' && st == argv[argc - 1]
      ensures var cur, rest := buff[..][st..pos], buff[..][pos + 1..n];
              EndsInBackslash(cur) == (pos > 0 && buff[pos - 1] == '\\') &&
              goal == Finish(done,
                             if EndsInBackslash(cur)
                             then (if state.InWord? then Word(Unescaped(cur), rest) else Quoted(Unescaped(cur), rest))
                             else (if state.InWord? then Quoted(cur, rest) else Word(cur, rest)))
    {
      var cur, s := buff[..][st..pos], Left();
      assert s[0] == '"' && s[1..] == buff[..][pos + 1..n];
      assert cur != [] ==> cur[|cur| - 1] == buff[pos - 1];
    }

    /** End the current token with a NUL at the current position. */
    method CutToken()
      requires Scanning() && state.InWord?
      modifies this`pos, this`done, buff
      ensures Bounds() && n == old(n) && pos == old(pos) + 1 && Left() == old(Left())[1..]
      ensures argc == |done| && done == old(done) + [old(buff[..][argv[argc - 1]..pos])]
      ensures Holds(buff[..], argv[..], done, pos)
    {
      ghost var st, s, b := argv[argc - 1], Left(), buff[..];
      ghost var cur := b[st..pos];
      buff[pos] := NUL;
      HoldsFrame(b, buff[..], argv[..], argv[..], done, st, pos + 1);
      assert buff[..][st..st + |cur|] == cur;
      HoldsMore(buff[..], argv[..], done, cur, pos + 1);
      done := done + [cur];
      pos := pos + 1;
      assert Left() == s[1..];
    }

    /** A space, `;` or LF ends the current token. */
    method EndToken()
      requires Scanning() && state.InWord? && (buff[pos] == ' ' || EndsCommand(buff[pos]))
      modifies this`pos, this`state, this`isNext, this`done, buff
      ensures Valid() && n - pos < old(n - pos)
    {
      hide Holds;
      ghost var s, cur := Left(), buff[..][argv[argc - 1]..pos];
      assert Word(cur, s) == Token(cur, s, true);
      assert goal == Rest(done + [cur], s);
      var c := buff[pos];
      CutToken();
      if c == ' ' {
        state := InVoid;
      } else {
        isNext := true;
      }
    }

    /** Case IN_QUOTE. */
    method StepQuote()
      requires Scanning() && state.InQuote?
      modifies this, buff, argv
      ensures Valid() && n - pos < old(n - pos) && goal == old(goal)
    {
      if buff[pos] == '"' {
        if buff[pos - 1] == '\\' {
          DropBackslash();
        } else {
          FlipQuote();
        }
      } else {
        KeepChar();
      }
    }

    /** Case IN_WORD. */
    method StepWord()
      requires Scanning() && state.InWord?
      modifies this, buff, argv
      ensures Valid() && n - pos < old(n - pos) && goal == old(goal)
    {
      var c := buff[pos];
      if c == '"' {
        if buff[pos - 1] == '\\' {
          DropBackslash();
        } else {
          FlipQuote();
        }
      } else if c == ' ' || c == '\n' || c == ';' {
        EndToken();
      } else {
        KeepChar();
      }
    }

    constructor (buff: array<char>, ghost n: nat)
      requires StringAt(buff[..], 0, n)
      ensures Bounds() && this.buff == buff && pos == 0 && this.n == n && fresh(argv) && !isNext
    {
      this.buff := buff;
      argv := new int[TOKEN_MAX](_ => -1);
      pos, argc, state, isNext := 0, 0, InVoid, false;
      this.n, done, goal := n, [], Nothing;
    }

    /** The head of the inner `for`: start a command at the current position. */
    method Begin()
      requires Bounds()
      modifies this`argc, this`state, this`isNext, this`done, this`goal, argv
      ensures Valid() && !isNext && goal == Rest([], Left())
    {
      argc := 0;
      argv[argc] := -1;
      isNext := false;
      state := InVoid;
      done := [];
      goal := Rest([], Left());
    }

    /** The inner `for`: terminates because the characters left before the NUL shrink. */
    method Scan()
      requires Valid()
      modifies this, buff, argv
      ensures Valid() && !Scanning() && goal == old(goal)
      ensures n - pos <= old(n - pos)
    {
      while buff[pos] != NUL && argc < TOKEN_MAX - 1 && !isNext
        invariant Valid() && goal == old(goal) && n - pos <= old(n - pos)
        decreases n - pos
      {
        hide Inside, Between, AtEnd;
        if state.InVoid? {
          StepVoid();
        } else if state.InQuote? {
          StepQuote();
        } else {
          StepWord();
        }
      }
    }

    /** What the scan has found when the inner `for` ends. */
    lemma Found()
      requires Valid() && !Scanning()
      ensures isNext == goal.more && (isNext ==> goal.rest == Left())
      ensures if state.InQuote? then goal.args == []
              else argc == |goal.args| < TOKEN_MAX && Holds(buff[..], argv[..], goal.args, n + 1)
    {
      if isNext {
        HoldsFrame(buff[..], buff[..], argv[..], argv[..], done, pos, n + 1);
      } else if state.InVoid? {
        assert Left() == [];
        HoldsFrame(buff[..], buff[..], argv[..], argv[..], done, pos, n + 1);
      } else {
        var st := argv[argc - 1];
        var cur := buff[..][st..n];
        if argc < TOKEN_MAX - 1 {
          assert Left() == [] && buff[..][st..pos] == cur;
          assert Word(cur, []) == Token(cur, [], true) && !Quoted(cur, []).closed;
          assert Rest(done + [cur], []) == Command(done + [cur], [], false);
        }
        HoldsFrame(buff[..], buff[..], argv[..], argv[..], done, st, n + 1);
        HoldsMore(buff[..], argv[..], done, cur, n + 1);
      }
    }

    /** The tail of the `do`: the argument list passed to tash_execute_cmd, if any. */
    method Finished() returns (args: seq<string>)
      requires Valid() && !Scanning()
      modifies this`argc, argv
      ensures args == goal.args && Bounds() && isNext == goal.more && (isNext ==> goal.rest == Left())
    {
      hide Holds;
      Found();
      if state.InQuote? {
        argc := 0;
        HoldsNone(buff[..], argv[..], n + 1);
      }
      ghost var a := argv[..];
      argv[argc] := -1;
      HoldsFrame(buff[..], buff[..], a, argv[..], goal.args, n + 1, n + 1);
      args := ReadArgs(goal.args);
    }

    lemma HoldsNone(b: seq<char>, argv: seq<int>, lo: int)
      ensures Holds(b, argv, [], lo)
    {
    }

    /** The C strings that argv points to. */
    method ReadArgs(ghost want: seq<string>) returns (args: seq<string>)
      requires argc == |want| < argv.Length && n < buff.Length && Holds(buff[..], argv[..], want, n + 1)
      ensures args == want
    {
      args := [];
      var k := 0;
      while k < argc
        invariant k <= argc && args == want[..k]
      {
        assert HoldsOne(buff[..], argv[k], want[k], n + 1);
        CStringIs(buff[..], argv[k], |want[k]|);
        args := args + [CString(buff[..][argv[k]..])];
        k := k + 1;
      }
    }

    method OneCommand() returns (args: seq<string>)
      requires Bounds()
      modifies this, buff, argv
      ensures Bounds()
      ensures var c := Rest([], old(Left())); args == c.args && isNext == c.more && (isNext ==> Left() == c.rest)
    {
      hide Rest, Inside, Between, AtEnd;
      Begin();
      Scan();
      args := Finished();
    }

    /** The `do` loop: one command after the other. */
    method Run() returns (cmds: seq<seq<string>>)
      requires Bounds()
      modifies this, buff, argv
      ensures cmds == Line(old(Left()))
    {
      hide Line, Rest;
      cmds := [];
      ghost var line, left := Left(), Line(Left());
      var more := true;
      while more
        invariant Bounds() && Line(line) == cmds + left && left == if more then Line(Left()) else []
        decreases more, if more then |Left()| else 0
      {
        ghost var c := Rest([], Left());
        LineUnfold(cmds, Left(), c);
        left := if c.more then Line(c.rest) else [];
        var args := OneCommand();
        if |args| > 0 {
          cmds := cmds + [args];
        }
        more := isNext;
      }
    }
  }

  lemma {:induction false} LineIs(s: string, c: Command)
    requires c == Rest([], s)
    ensures Line(s) == (if c.args == [] then [] else [c.args]) + (if c.more then Line(c.rest) else [])
    ensures c.more ==> |c.rest| < |s|
  {
    hide Rest;
  }

  lemma {:induction false} LineUnfold(cmds: seq<seq<string>>, s: string, c: Command)
    requires c == Rest([], s)
    ensures cmds + Line(s) == (if c.args == [] then cmds else cmds + [c.args]) + (if c.more then Line(c.rest) else [])
    ensures c.more ==> |c.rest| < |s|
  {
    hide Rest, Line;
    LineIs(s, c);
    var tail := if c.more then Line(c.rest) else [];
    assert [] + tail == tail && cmds + ([c.args] + tail) == cmds + [c.args] + tail;
  }

  /** tash_execute_cmdline: for every NUL-terminated line, whatever it holds, the parser stays
      inside the buffer, terminates, and executes exactly the commands of the grammar, in order. */
  method ExecuteCmdline(buff: array<char>, ghost n: nat) returns (cmds: seq<seq<string>>)
    requires StringAt(buff[..], 0, n)
    modifies buff
    ensures cmds == Line(old(buff[..n]))
  {
    var sc := new Scanner(buff, n);
    assert sc.Left() == buff[..n];
    cmds := sc.Run();
  }
}
