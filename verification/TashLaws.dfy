/** What a command line means, independently of how the grammar reads it: a machine that takes one
    character at a time gives the same commands, and with it the laws for comments, separators, plain
    words, open quotes and the last token. */
module TashLaws {
  import opened TashParse

  /** Where the machine stands in a command. `Last` is the 31st token, `Lost` a 31st token that began
      with a quote. */
  datatype Mode = Void | InWord(cur: string) | InQuote(cur: string) | Comment | Last(text: string) | Lost

  datatype Machine = Machine(done: seq<seq<string>>, args: seq<string>, mode: Mode)

  const Start := Machine([], [], Void)

  function Closed(done: seq<seq<string>>, args: seq<string>): seq<seq<string>> {
    if args == [] then done else done + [args]
  }

  function Step(m: Machine, c: char): Machine {
    match m.mode
    case Void =>
      if c == ' ' then m
      else if c == '#' then m.(mode := Comment)
      else if EndsCommand(c) then Machine(Closed(m.done, m.args), [], Void)
      else if |m.args| >= TOKEN_MAX - 2 then m.(mode := if c == '"' then Lost else Last([c]))
      else m.(mode := if c == '"' then InQuote([]) else InWord([c]))
    case InWord(cur) =>
      if c == ' ' then m.(args := m.args + [cur], mode := Void)
      else if EndsCommand(c) then Machine(m.done + [m.args + [cur]], [], Void)
      else if c != '"' then m.(mode := InWord(cur + [c]))
      else m.(mode := if EndsInBackslash(cur) then InWord(Unescaped(cur)) else InQuote(cur))
    case InQuote(cur) =>
      if c != '"' then m.(mode := InQuote(cur + [c]))
      else m.(mode := if EndsInBackslash(cur) then InQuote(Unescaped(cur)) else InWord(cur))
    case Last(text) => m.(mode := Last(text + [c]))
    case Comment => m
    case Lost => m
  }

  function Steps(m: Machine, s: string): Machine
    decreases |s|
  {
    if s == [] then m else Steps(Step(m, s[0]), s[1..])
  }

  /** The commands when the line ends here. */
  function Final(m: Machine): seq<seq<string>> {
    match m.mode
    case Void => Closed(m.done, m.args)
    case Comment => Closed(m.done, m.args)
    case InWord(cur) => m.done + [m.args + [cur]]
    case Last(text) => m.done + [m.args + [text]]
    case InQuote(_) => m.done
    case Lost => m.done
  }

  // ---------------------------------------------------------------- the machine and the grammar

  function Emit(c: Command): seq<seq<string>> {
    (if c.args == [] then [] else [c.args]) + (if c.more then Line(c.rest) else [])
  }

  lemma LineEmits(s: string)
    ensures Line(s) == Emit(Rest([], s))
  {
    hide Rest;
  }

  /** What the grammar makes of the rest `s` of the line from where the machine stands. */
  function Continued(m: Machine, s: string): Command {
    match m.mode
    case Void => Rest(m.args, s)
    case InWord(cur) => Finish(m.args, Word(cur, s))
    case InQuote(cur) => Finish(m.args, Quoted(cur, s))
    case Comment => Command(m.args, [], false)
    case Last(text) => Command(m.args + [text + s], [], false)
    case Lost => Nothing
  }

  lemma AtEnd(m: Machine)
    ensures Final(m) == m.done + Emit(Continued(m, []))
  {
    match m.mode
    case Last(text) => assert text + [] == text;
    case InWord(cur) =>
      assert Finish(m.args, Word(cur, [])) == Rest(m.args + [cur], []) == Command(m.args + [cur], [], false);
    case InQuote(_) => assert Continued(m, []) == Nothing;
    case _ => assert Continued(m, []) == if m.mode.Lost? then Nothing else Command(m.args, [], false);
  }

  /** One character further the grammar still finds the same commands. */
  lemma OneStep(m: Machine, s: string)
    requires s != []
    ensures var m' := Step(m, s[0]);
            m.done + Emit(Continued(m, s)) == m'.done + Emit(Continued(m', s[1..]))
  {
    var c, rest := s[0], s[1..];
    match m.mode
    case Void => StepVoid(m, s);
    case InWord(cur) => StepWord(m, cur, s);
    case InQuote(cur) =>
    case Last(text) => assert text + s == (text + [c]) + rest;
    case Comment =>
    case Lost =>
  }

  lemma StepVoid(m: Machine, s: string)
    requires s != [] && m.mode.Void?
    ensures var m' := Step(m, s[0]);
            m.done + Emit(Continued(m, s)) == m'.done + Emit(Continued(m', s[1..]))
  {
    hide Word, Quoted;
    if EndsCommand(s[0]) {
      SeparatorEmits(m.done, m.args, s[1..]);
    } else if |m.args| >= TOKEN_MAX - 2 && s[0] != ' ' && s[0] != '#' && s[0] != '"' {
      assert [s[0]] + s[1..] == s;
    }
  }

  lemma StepWord(m: Machine, cur: string, s: string)
    requires s != [] && m.mode == InWord(cur)
    ensures var m' := Step(m, s[0]);
            m.done + Emit(Continued(m, s)) == m'.done + Emit(Continued(m', s[1..]))
  {
    if EndsCommand(s[0]) {
      SeparatorEmits(m.done, m.args + [cur], s[1..]);
      assert Finish(m.args, Word(cur, s)) == Rest(m.args + [cur], s) == Command(m.args + [cur], s[1..], true);
    } else if s[0] == ' ' {
      assert Finish(m.args, Word(cur, s)) == Rest(m.args + [cur], s) == Rest(m.args + [cur], s[1..]);
    }
  }

  lemma SeparatorEmits(done: seq<seq<string>>, args: seq<string>, rest: string)
    ensures done + Emit(Command(args, rest, true)) == Closed(done, args) + Emit(Rest([], rest))
  {
    hide Rest;
    LineEmits(rest);
    assert args == [] ==> [] + Line(rest) == Line(rest);
    assert args != [] ==> done + ([args] + Line(rest)) == (done + [args]) + Line(rest);
  }

  lemma {:induction false} StepsMean(m: Machine, s: string)
    ensures Final(Steps(m, s)) == m.done + Emit(Continued(m, s))
    decreases |s|
  {
    hide Step, Emit, Continued, Final;
    if s == [] {
      AtEnd(m);
    } else {
      OneStep(m, s);
      StepsMean(Step(m, s[0]), s[1..]);
    }
  }

  /** The machine finds the commands of the line. */
  lemma {:induction false} MachineReads(s: string)
    ensures Line(s) == Final(Steps(Start, s))
  {
    hide Steps, Rest, Line, Final;
    StepsMean(Start, s);
    LineEmits(s);
    assert [] + Emit(Rest([], s)) == Emit(Rest([], s));
  }

  lemma {:induction false} StepsConcat(m: Machine, a: string, b: string)
    ensures Steps(m, a + b) == Steps(Steps(m, a), b)
    decreases |a|
  {
    hide Step;
    if a == [] {
      assert a + b == b;
    } else {
      assert (a + b)[1..] == a[1..] + b;
      StepsConcat(Step(m, a[0]), a[1..], b);
    }
  }

  // ---------------------------------------------------------------- laws

  /** The line may end after `s`: no quote is open, no comment has begun and the 31st token has not. */
  predicate Settled(s: string) {
    var mode := Steps(Start, s).mode; mode.Void? || mode.InWord?
  }

  lemma {:induction false} Stays(m: Machine, t: string)
    requires m.mode.Comment? || m.mode.Lost?
    ensures Steps(m, t) == m
    decreases |t|
  {
    if t != [] { Stays(m, t[1..]); }
  }

  /** A comment is ignored to the end of the line, whatever it holds. Inside a word a `#` is none. */
  lemma {:induction false} CommentIsIgnored(s: string, t: string)
    requires Settled(s)
    ensures Line(s + " #" + t) == Line(s)
    ensures Steps(Start, s).mode.Void? ==> Line(s + "#" + t) == Line(s)
  {
    hide Line;
    var m := Steps(Start, s);
    MachineReads(s);
    if m.mode.Void? {
      MachineReads(s + "#" + t);
      StepsConcat(Start, s + "#", t);
      StepsConcat(Start, s, "#");
      assert "#"[1..] == [] && Steps(m, "#") == Step(m, '#');
      Stays(Step(m, '#'), t);
    }
    MachineReads(s + " #" + t);
    StepsConcat(Start, s + " #", t);
    StepsConcat(Start, s, " #");
    TwoSteps(m, ' ', '#');
    assert " #" == [' ', '#'];
    Stays(Step(Step(m, ' '), '#'), t);
  }

  lemma TwoSteps(m: Machine, c: char, d: char)
    ensures Steps(m, [c, d]) == Step(Step(m, c), d)
  {
    hide Step;
    assert [c, d][1..] == [d] && [d][1..] == [];
    assert Steps(Step(m, c), [d]) == Steps(Step(Step(m, c), d), []);
  }

  /** A semicolon or a line feed separates: what stands on its two sides is executed one after the other. */
  lemma {:induction false} SeparatorSplits(s: string, c: char, t: string)
    requires Settled(s) && (c == ';' || c == '\n')
    ensures Line(s + [c] + t) == Line(s) + Line(t)
  {
    hide Line;
    var m := Steps(Start, s);
    MachineReads(s);
    MachineReads(s + [c] + t);
    StepsConcat(Start, s + [c], t);
    StepsConcat(Start, s, [c]);
    assert [c][1..] == [] && Steps(m, [c]) == Step(m, c);
    var m' := Step(m, c);
    assert m' == Machine(Final(m), [], Void);
    StepsMean(m', t);
    LineEmits(t);
  }

  /** An open quote discards its command, and only that. */
  lemma {:induction false} OpenQuoteDiscards(s: string, c: char, t: string)
    requires Settled(s) && (c == ';' || c == '\n') && Steps(Start, t).mode.InQuote? && Steps(Start, t).done == []
    ensures Line(t) == [] && Line(s + [c] + t) == Line(s)
  {
    hide Line, Steps;
    MachineReads(t);
    SeparatorSplits(s, c, t);
    assert Line(s) + [] == Line(s);
  }

  lemma {:induction false} ReadsOpen(m: Machine, cur: string, u: string)
    requires m.mode == InQuote(cur) && '"' !in u
    ensures Steps(m, u) == m.(mode := InQuote(cur + u))
    decreases |u|
  {
    if u == [] {
      assert cur + u == cur;
    } else {
      ReadsOpen(m.(mode := InQuote(cur + [u[0]])), cur + [u[0]], u[1..]);
      assert cur + [u[0]] + u[1..] == cur + u;
    }
  }

  /** So a quote that is never closed swallows separators and comments with its command. */
  lemma {:induction false} UnclosedQuote(s: string, c: char, u: string)
    requires Settled(s) && (c == ';' || c == '\n') && '"' !in u
    ensures Line(s + [c] + (['"'] + u)) == Line(s)
  {
    var t := ['"'] + u;
    assert t[1..] == u && Step(Start, '"') == Start.(mode := InQuote([]));
    ReadsOpen(Start.(mode := InQuote([])), [], u);
    OpenQuoteDiscards(s, c, t);
  }

  // ---------------------------------------------------------------- plain words

  predicate PlainChar(c: char) { c != ' ' && c != '"' && c != ';' && c != '\n' }

  /** A word that needs no quoting. */
  predicate Plain(w: string) { w != [] && w[0] != '#' && forall i | 0 <= i < |w| :: PlainChar(w[i]) }

  predicate AllPlain(words: seq<string>) { forall i | 0 <= i < |words| :: Plain(words[i]) }

  predicate Blank(gap: string) { gap != [] && forall i | 0 <= i < |gap| :: gap[i] == ' ' }

  predicate AllBlank(gaps: seq<string>) { forall i | 0 <= i < |gaps| :: Blank(gaps[i]) }

  /** The words, each with its gap behind it. */
  function Spaced(words: seq<string>, gaps: seq<string>): string
    requires |words| == |gaps|
  {
    if words == [] then [] else words[0] + gaps[0] + Spaced(words[1..], gaps[1..])
  }

  lemma {:induction false} ReadsWord(m: Machine, cur: string, w: string)
    requires m.mode == InWord(cur) && forall i | 0 <= i < |w| :: PlainChar(w[i])
    ensures Steps(m, w) == m.(mode := InWord(cur + w))
    decreases |w|
  {
    if w == [] {
      assert cur + w == cur;
    } else {
      ReadsWord(m.(mode := InWord(cur + [w[0]])), cur + [w[0]], w[1..]);
      assert cur + [w[0]] + w[1..] == cur + w;
    }
  }

  lemma {:induction false} ReadsGap(m: Machine, gap: string)
    requires m.mode.Void? && forall i | 0 <= i < |gap| :: gap[i] == ' '
    ensures Steps(m, gap) == m
    decreases |gap|
  {
    if gap != [] { ReadsGap(m, gap[1..]); }
  }

  lemma {:induction false} ReadsLast(m: Machine, text: string, t: string)
    requires m.mode == Last(text)
    ensures Steps(m, t) == m.(mode := Last(text + t))
    decreases |t|
  {
    if t == [] {
      assert text + t == text;
    } else {
      ReadsLast(m.(mode := Last(text + [t[0]])), text + [t[0]], t[1..]);
      assert text + [t[0]] + t[1..] == text + t;
    }
  }

  /** One plain word and its gap. */
  lemma {:induction false} ReadsOne(m: Machine, w: string, gap: string)
    requires m.mode.Void? && Plain(w) && Blank(gap) && |m.args| < TOKEN_MAX - 2
    ensures Steps(m, w + gap) == m.(args := m.args + [w])
  {
    var w0, m1 := [w[0]], m.(mode := InWord([w[0]]));
    assert Step(m, w[0]) == m1;
    ReadsWord(m1, w0, w[1..]);
    assert w0 + w[1..] == w;
    assert Steps(m, w) == m.(mode := InWord(w));
    StepsConcat(m, w, gap);
    var m2 := m.(args := m.args + [w]);
    assert Step(m.(mode := InWord(w)), ' ') == m2;
    ReadsGap(m2, gap[1..]);
  }

  lemma {:induction false} ReadsWords(m: Machine, words: seq<string>, gaps: seq<string>)
    requires m.mode.Void? && |words| == |gaps| && AllPlain(words) && AllBlank(gaps)
    requires |m.args| + |words| <= TOKEN_MAX - 2
    ensures Steps(m, Spaced(words, gaps)) == m.(args := m.args + words)
    decreases |words|
  {
    if words == [] {
      assert m.args + words == m.args;
    } else {
      hide Steps, Plain, Blank;
      var rest := Spaced(words[1..], gaps[1..]);
      ReadsOne(m, words[0], gaps[0]);
      StepsConcat(m, words[0] + gaps[0], rest);
      ReadsWords(m.(args := m.args + [words[0]]), words[1..], gaps[1..]);
      assert m.args + [words[0]] + words[1..] == m.args + words;
    }
  }

  /** Plain words, up to 30 of them and with any gaps between them, are one command as they stand. */
  lemma {:induction false} PlainWords(words: seq<string>, gaps: seq<string>)
    requires |words| == |gaps| && AllPlain(words) && AllBlank(gaps) && 1 <= |words| <= 30
    ensures Line(Spaced(words, gaps)) == [words] && Settled(Spaced(words, gaps))
  {
    hide Line, Steps;
    MachineReads(Spaced(words, gaps));
    ReadsWords(Start, words, gaps);
    assert [] + words == words;
  }

  /** Behind 30 words everything left is the last argument, with its gaps, separators and quotes; unless it
      begins with a quote: then the command is discarded. */
  lemma {:induction false} ThirtyFirstToken(words: seq<string>, gaps: seq<string>, text: string)
    requires |words| == |gaps| == 30 && AllPlain(words) && AllBlank(gaps)
    requires text != [] && text[0] != ' ' && text[0] != '#' && text[0] != ';' && text[0] != '\n'
    ensures Line(Spaced(words, gaps) + text) == if text[0] == '"' then [] else [words + [text]]
  {
    hide Line;
    var m := Machine([], words, Void);
    MachineReads(Spaced(words, gaps) + text);
    ReadsWords(Start, words, gaps);
    assert [] + words == words;
    StepsConcat(Start, Spaced(words, gaps), text);
    var m1 := Step(m, text[0]);
    if text[0] == '"' {
      Stays(m1, text[1..]);
    } else {
      ReadsLast(m1, [text[0]], text[1..]);
      assert [text[0]] + text[1..] == text;
    }
  }
}
