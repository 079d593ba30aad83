/** What the TASH shell means by a command line: a grammar for spaces, double quotes,
    escaped quotes, `;`, LF, `#` and unclosed quotes, and its inverse on quoted arguments. */
module TashParse {

  const TOKEN_MAX: nat := 32

  /** A token, what follows it, and whether its quotes are closed. */
  datatype Token = Token(text: string, rest: string, closed: bool)

  predicate EndsInBackslash(s: string) { s != [] && s[|s| - 1] == '\\' }

  predicate EndsCommand(c: char) { c == ';' || c == '\n' }

  function Unescaped(cur: string): string
    requires EndsInBackslash(cur)
  {
    cur[..|cur| - 1] + ['"']
  }

  /** The unquoted rest of a token whose text so far is `cur`. */
  function Word(cur: string, s: string): (t: Token)
    ensures |t.rest| <= |s|
    ensures t.closed && t.rest != [] ==> t.rest[0] == ' ' || EndsCommand(t.rest[0])
    decreases |s|
  {
    if s == [] || s[0] == ' ' || EndsCommand(s[0]) then Token(cur, s, true)
    else if s[0] != '"' then Word(cur + [s[0]], s[1..])
    else if EndsInBackslash(cur) then Word(Unescaped(cur), s[1..])
    else Quoted(cur, s[1..])
  }

  /** The rest of a token inside double quotes. */
  function Quoted(cur: string, s: string): (t: Token)
    ensures |t.rest| <= |s|
    ensures t.closed && t.rest != [] ==> t.rest[0] == ' ' || EndsCommand(t.rest[0])
    decreases |s|
  {
    if s == [] then Token(cur, s, false)
    else if s[0] != '"' then Quoted(cur + [s[0]], s[1..])
    else if EndsInBackslash(cur) then Quoted(Unescaped(cur), s[1..])
    else Word(cur, s[1..])
  }

  /** One command: its arguments, what follows it, and whether a separator ended it. */
  datatype Command = Command(args: seq<string>, rest: string, more: bool)

  const Nothing := Command([], [], false)

  /** The rest of a command with `args` already read. An unclosed quote discards the whole
      command. The 31st token ends the line: its text is everything that is left. */
  function Rest(args: seq<string>, s: string): (c: Command)
    ensures c.more ==> |c.rest| < |s|
    decreases |s|, 0
  {
    if s == [] then Command(args, [], false)
    else if s[0] == ' ' then Rest(args, s[1..])
    else if s[0] == '#' then Command(args, [], false)
    else if EndsCommand(s[0]) then Command(args, s[1..], true)
    else if |args| >= TOKEN_MAX - 2 then (if s[0] == '"' then Nothing else Command(args + [s], [], false))
    else Finish(args, if s[0] == '"' then Quoted([], s[1..]) else Word([s[0]], s[1..]))
  }

  function Finish(args: seq<string>, t: Token): (c: Command)
    ensures c.more ==> |c.rest| < |t.rest|
    decreases |t.rest|, 1
  {
    if t.closed then Rest(args + [t.text], t.rest) else Nothing
  }

  /** The argument lists of the commands of a line, in order; empty commands are skipped. */
  function Line(s: string): seq<seq<string>>
    decreases |s|
  {
    var c := Rest([], s);
    (if c.args == [] then [] else [c.args]) + (if c.more then Line(c.rest) else [])
  }

  // ---------------------------------------------------------------- quoting

  function Escape(arg: string): string {
    if arg == [] then []
    else (if arg[0] == '"' then ['\\', '"'] else [arg[0]]) + Escape(arg[1..])
  }

  function Quote(arg: string): string { ['"'] + Escape(arg) + ['"'] }

  /** Each argument quoted, one space between neighbours. */
  function Join(args: seq<string>): string {
    if args == [] then []
    else if |args| == 1 then Quote(args[0])
    else Quote(args[0]) + [' '] + Join(args[1..])
  }

  /** Inside quotes an escaped argument is read back whatever it contains. */
  lemma {:induction false} QuotedReadsEscaped(cur: string, arg: string, tail: string)
    ensures Quoted(cur, Escape(arg) + tail) == Quoted(cur + arg, tail)
    decreases |arg|
  {
    hide Quoted;
    if arg == [] {
      assert Escape(arg) + tail == tail && cur + arg == cur;
    } else {
      var next, rest := cur + [arg[0]], Escape(arg[1..]) + tail;
      QuotedReadsEscaped(next, arg[1..], tail);
      assert next + arg[1..] == cur + arg;
      QuotedStep(cur, arg[0], rest);
      if arg[0] == '"' {
        assert Escape(arg) + tail == ['\\', '"'] + rest;
      } else {
        assert Escape(arg) + tail == [arg[0]] + rest;
      }
    }
  }

  lemma {:induction false} QuotedStep(cur: string, c: char, rest: string)
    ensures c != '"' ==> Quoted(cur, [c] + rest) == Quoted(cur + [c], rest)
    ensures c == '"' ==> Quoted(cur, ['\\', '"'] + rest) == Quoted(cur + [c], rest)
  {
    assert ([c] + rest)[1..] == rest;
    var s := ['\\', '"'] + rest;
    assert s[1..] == ['"'] + rest && s[1..][1..] == rest;
    assert Unescaped(cur + ['\\']) == cur + ['"'];
  }

  /** A quoted argument that does not end in a backslash is read back as one token. */
  lemma {:induction false} TokenOfQuoted(arg: string, tail: string)
    requires !EndsInBackslash(arg) && (tail == [] || tail[0] == ' ')
    ensures Quoted([], (Escape(arg) + ['"']) + tail) == Token(arg, tail, true)
  {
    QuotedReadsEscaped([], arg, ['"'] + tail);
    assert (Escape(arg) + ['"']) + tail == Escape(arg) + (['"'] + tail);
    assert [] + arg == arg && (['"'] + tail)[1..] == tail;
  }

  function Gap(args: seq<string>): string {
    if args == [] then [] else [' '] + Join(args)
  }

  lemma {:induction false} JoinSplit(args: seq<string>)
    requires args != []
    ensures Join(args) == ['"'] + ((Escape(args[0]) + ['"']) + Gap(args[1..]))
  {
  }

  lemma {:induction false} RestAtQuote(args: seq<string>, body: string)
    requires |args| < TOKEN_MAX - 2
    ensures Rest(args, ['"'] + body) == Finish(args, Quoted([], body))
  {
    assert (['"'] + body)[1..] == body;
  }

  lemma {:induction false} RestAtGap(args: seq<string>, more: seq<string>)
    ensures Rest(args, Gap(more)) == if more == [] then Command(args, [], false) else Rest(args, Join(more))
  {
    if more != [] { assert Gap(more)[1..] == Join(more); }
  }

  /** Reading the first of a joined list of arguments. */
  lemma {:induction false} ReadOne(done: seq<string>, args: seq<string>)
    requires args != [] && |done| < TOKEN_MAX - 2 && !EndsInBackslash(args[0])
    ensures Rest(done, Join(args)) ==
            if |args| == 1 then Command(done + [args[0]], [], false) else Rest(done + [args[0]], Join(args[1..]))
  {
    hide Rest, Quoted, Join, Escape;
    var tail := Gap(args[1..]);
    JoinSplit(args);
    RestAtQuote(done, (Escape(args[0]) + ['"']) + tail);
    TokenOfQuoted(args[0], tail);
    RestAtGap(done + [args[0]], args[1..]);
  }

  lemma {:induction false} ReadJoined(done: seq<string>, args: seq<string>)
    requires args != [] && |done| + |args| <= TOKEN_MAX - 2
    requires forall i | 0 <= i < |args| :: !EndsInBackslash(args[i])
    ensures Rest(done, Join(args)) == Command(done + args, [], false)
    decreases |args|
  {
    hide Rest, Join;
    ReadOne(done, args);
    assert done + [args[0]] + args[1..] == done + args;
    if |args| > 1 { ReadJoined(done + [args[0]], args[1..]); }
  }

  // ---------------------------------------------------------------- why the condition is needed

  /** Text that does not end in a backslash is never taken back from a token. */
  lemma {:induction false} TokenKeepsPrefix(kept: string, cur: string, s: string)
    requires kept != [] && !EndsInBackslash(kept) && kept <= cur
    ensures kept <= Word(cur, s).text && kept <= Quoted(cur, s).text
    decreases |s|
  {
    if s != [] {
      TokenKeepsPrefix(kept, cur + [s[0]], s[1..]);
      TokenKeepsPrefix(kept, cur, s[1..]);
      if EndsInBackslash(cur) {
        assert kept != cur && kept <= cur[..|cur| - 1];
        TokenKeepsPrefix(kept, Unescaped(cur), s[1..]);
      }
    }
  }

  /** Arguments once read stay in front, unless the whole command is discarded. */
  lemma {:induction false} RestKeepsArgs(args: seq<string>, s: string)
    requires args != []
    ensures var c := Rest(args, s); args <= c.args || c == Nothing
    decreases |s|
  {
    if s != [] && s[0] != '#' && !EndsCommand(s[0]) {
      if s[0] == ' ' {
        RestKeepsArgs(args, s[1..]);
      } else if |args| < TOKEN_MAX - 2 {
        var t := if s[0] == '"' then Quoted([], s[1..]) else Word([s[0]], s[1..]);
        if t.closed { RestKeepsArgs(args + [t.text], t.rest); }
      }
    }
  }

  /** An argument that ends in a backslash swallows its closing quote: it is not read back. */
  lemma {:induction false} BackslashBreaks(done: seq<string>, arg: string, tail: string)
    requires EndsInBackslash(arg) && |done| < TOKEN_MAX - 2
    ensures var c := Rest(done, ['"'] + ((Escape(arg) + ['"']) + tail));
            c == Nothing || (|c.args| > |done| && c.args[|done|] != arg)
  {
    hide Rest, Word, Escape;
    var body := (Escape(arg) + ['"']) + tail;
    var t := Quoted([], body);
    RestAtQuote(done, body);
    TokenOfBroken(arg, tail);
    if t.closed {
      RestKeepsArgs(done + [t.text], t.rest);
      assert (done + [t.text])[|done|] == t.text;
    }
  }

  lemma QuoteTaken(arg: string, tail: string)
    requires EndsInBackslash(arg)
    ensures Quoted(arg, ['"'] + tail) == Quoted(Unescaped(arg), tail)
  {
    assert (['"'] + tail)[1..] == tail;
  }

  lemma {:induction false} TokenOfBroken(arg: string, tail: string)
    requires EndsInBackslash(arg)
    ensures Quoted([], (Escape(arg) + ['"']) + tail).text != arg
  {
    hide Quoted, Escape;
    assert (Escape(arg) + ['"']) + tail == Escape(arg) + (['"'] + tail);
    QuotedReadsEscaped([], arg, ['"'] + tail);
    assert [] + arg == arg;
    QuoteTaken(arg, tail);
    TokenKeepsPrefix(Unescaped(arg), Unescaped(arg), tail);
    assert Unescaped(arg)[|arg| - 1] == '"' && arg[|arg| - 1] == '\\';
  }

  lemma {:induction false} ReadJoinedBroken(done: seq<string>, args: seq<string>, k: nat)
    requires k < |args| && |done| + k < TOKEN_MAX - 2
    requires EndsInBackslash(args[k]) && forall i | 0 <= i < k :: !EndsInBackslash(args[i])
    ensures var c := Rest(done, Join(args)); c == Nothing || (c.args != [] && c.args != done + args)
    decreases k
  {
    hide Rest, Join;
    if k == 0 {
      JoinSplit(args);
      BackslashBreaks(done, args[0], Gap(args[1..]));
      assert (done + args)[|done|] == args[0];
    } else {
      ReadOne(done, args);
      ReadJoinedBroken(done + [args[0]], args[1..], k - 1);
      assert done + [args[0]] + args[1..] == done + args;
    }
  }

  /** The 31st token must not be quoted: it discards the command. */
  lemma {:induction false} ReadTooMany(done: seq<string>, args: seq<string>)
    requires |done| <= TOKEN_MAX - 2 < |done| + |args|
    requires forall i | 0 <= i < TOKEN_MAX - 2 - |done| :: !EndsInBackslash(args[i])
    ensures Rest(done, Join(args)) == Nothing
    decreases |args|
  {
    hide Join, Quoted, Word;
    if |done| == TOKEN_MAX - 2 {
      JoinSplit(args);
    } else {
      hide Rest;
      ReadOne(done, args);
      ReadTooMany(done + [args[0]], args[1..]);
    }
  }

  lemma {:induction false} LineFirst(s: string)
    ensures var c := Rest([], s);
            (c.args != [] ==> Line(s) != [] && Line(s)[0] == c.args)
            && (!c.more ==> Line(s) == if c.args == [] then [] else [c.args])
  {
    hide Rest;
  }

  /** The quote/parse round trip: quoting, joining and parsing any list of arguments gives back the
      same single command exactly when there are 1 to 30 of them and none ends in a backslash. */
  lemma {:induction false} RoundTrip(args: seq<string>)
    ensures Line(Join(args)) == [args] <==>
            1 <= |args| <= 30 && forall i | 0 <= i < |args| :: !EndsInBackslash(args[i])
  {
    hide Rest, Join, Line;
    LineFirst(Join(args));
    assert [] + args == args;
    if args == [] {
      ReadNone();
    } else if i :| 0 <= i < |args| && i < TOKEN_MAX - 2 && EndsInBackslash(args[i]) {
      ReadJoinedBroken([], args, FirstBackslash(args, i));
    } else if |args| > TOKEN_MAX - 2 {
      ReadTooMany([], args);
    } else {
      ReadJoined([], args);
    }
  }

  lemma ReadNone()
    ensures Rest([], Join([])) == Nothing
  {
  }

  function FirstBackslash(args: seq<string>, i: nat): (k: nat)
    requires i < |args| && EndsInBackslash(args[i])
    ensures k <= i && EndsInBackslash(args[k]) && forall j | 0 <= j < k :: !EndsInBackslash(args[j])
    decreases |args|
  {
    if EndsInBackslash(args[0]) then 0 else 1 + FirstBackslash(args[1..], i - 1)
  }
}
