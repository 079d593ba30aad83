/** The command table of apps/shell/tash_command.c: an array that is searched linearly and
    sorted now and then, and that behaves as a map from 15-character names to bindings. */
module TashCommands {
  import opened TashSort

  const MAXSTRLENGTH: nat := 16
  const EXECMD_SYNC := 0
  const EXECMD_ASYNC := 1

  datatype Binding = Binding(cb: int, execType: int)

  type Bindings = map<string, Binding>

  /** What tash_execute_cmd does with a command line. */
  datatype Dispatch = NotRegistered | CallNow(cb: int) | StartTask(cb: int) | WrongType

  // ---------------------------------------------------------------- strncmp and strncpy

  /** The characters strncpy(dest, s, n) keeps. */
  function Trunc(s: string, n: nat): string {
    if |s| <= n then s else s[..n]
  }

  /** strncmp(a, b, n) == 0: stop at the first difference, at the end of `a`, or after n characters. */
  predicate StrncmpIsZero(a: string, b: string, n: nat)
    decreases n
  {
    n == 0 ||
    if a == [] || b == [] then a == [] && b == []
    else a[0] == b[0] && StrncmpIsZero(a[1..], b[1..], n - 1)
  }

  lemma {:induction false} StrncmpComparesPrefixes(a: string, b: string, n: nat)
    ensures StrncmpIsZero(a, b, n) <==> Trunc(a, n) == Trunc(b, n)
    decreases n
  {
    if n > 0 && a != [] && b != [] {
      StrncmpComparesPrefixes(a[1..], b[1..], n - 1);
      TruncStep(a, n);
      TruncStep(b, n);
    }
  }

  lemma TruncStep(a: string, n: nat)
    requires a != [] && n > 0
    ensures Trunc(a, n) == [a[0]] + Trunc(a[1..], n - 1)
  {
  }

  /** That is the longest beginning of `s` with at most `n` characters. */
  lemma TruncMeans(s: string, n: nat)
    ensures Trunc(s, n) <= s && |Trunc(s, n)| <= n && (|Trunc(s, n)| < n ==> Trunc(s, n) == s)
  {
  }

  function Key(name: string): string { Trunc(name, MAXSTRLENGTH - 1) }

  /** Names count with their first 15 characters. */
  lemma KeyMeans(name: string)
    ensures Key(name) <= name && |Key(name)| == if |name| < 15 then |name| else 15
  {
    TruncMeans(name, MAXSTRLENGTH - 1);
  }

  // ---------------------------------------------------------------- the map the table stands for

  /** tash_cmd_install on the map: a full table refuses with -1, a taken name with -2. */
  function InstallSpec(m: Bindings, max: nat, name: string, b: Binding): (Bindings, int) {
    if |m| == max then (m, -1)
    else if Key(name) in m then (m, -2)
    else (m[Key(name) := b], 0)
  }

  /** The answers: 0 exactly for a new name and room for it, which binds that name and no other; -1 exactly
      for a full table; -2 exactly for a taken name in a table with room; nothing changes then. */
  lemma InstallAnswers(m: Bindings, max: nat, name: string, b: Binding)
    requires |m| <= max
    ensures var (t, r) := InstallSpec(m, max, name, b);
            && (r == 0 <==> |m| < max && Key(name) !in m) && (r == -1 <==> |m| == max)
            && (r == -2 <==> |m| < max && Key(name) in m) && (r != 0 ==> t == m)
            && (r == 0 ==> |t| == |m| + 1 && t.Keys == m.Keys + {Key(name)} && t[Key(name)] == b
                           && forall k | k in m :: t[k] == m[k])
  {
  }

  datatype Request = Request(name: string, binding: Binding)

  function InstallAll(m: Bindings, max: nat, requests: seq<Request>): Bindings
    decreases |requests|
  {
    if requests == [] then m
    else InstallAll(InstallSpec(m, max, requests[0].name, requests[0].binding).0, max, requests[1..])
  }

  /** Once bound, a name keeps its binding and is found under every name with the same prefix. */
  lemma {:induction false} BindingsStay(m: Bindings, max: nat, requests: seq<Request>)
    requires |m| <= max
    ensures |InstallAll(m, max, requests)| <= max
    ensures m.Keys <= InstallAll(m, max, requests).Keys
    ensures forall k | k in m :: InstallAll(m, max, requests)[k] == m[k]
    decreases |requests|
  {
    if requests != [] {
      BindingsStay(InstallSpec(m, max, requests[0].name, requests[0].binding).0, max, requests[1..]);
    }
  }

  predicate Asked(requests: seq<Request>, key: string) {
    exists i :: 0 <= i < |requests| && Key(requests[i].name) == key
  }

  function FirstAsked(requests: seq<Request>, key: string): (i: nat)
    requires Asked(requests, key)
    ensures i < |requests| && Key(requests[i].name) == key
    ensures forall j | 0 <= j < i :: Key(requests[j].name) != key
    decreases |requests|
  {
    if Key(requests[0].name) == key then 0
    else
      assert Asked(requests[1..], key) by {
        var i :| 0 <= i < |requests| && Key(requests[i].name) == key;
        assert requests[1..][i - 1] == requests[i];
      }
      1 + FirstAsked(requests[1..], key)
  }

  /** A bound name carries exactly the binding of the first request made under its prefix. */
  lemma {:induction false} FirstRequestWins(m: Bindings, max: nat, requests: seq<Request>, key: string)
    requires |m| <= max && key !in m && key in InstallAll(m, max, requests)
    ensures Asked(requests, key)
    ensures InstallAll(m, max, requests)[key] == requests[FirstAsked(requests, key)].binding
    decreases |requests|
  {
    if requests != [] {
      var rest, m' := requests[1..], InstallSpec(m, max, requests[0].name, requests[0].binding).0;
      if key in m' {
        BindingsStay(m', max, rest);
        assert Asked(requests, key) by { assert Key(requests[0].name) == key; }
      } else {
        FirstRequestWins(m', max, rest, key);
        assert Asked(requests, key) by {
          assert Key(requests[1 + FirstAsked(rest, key)].name) == key;
        }
        if Key(requests[0].name) == key {
          assert |m| == max;
          FullStays(m, max, rest);
          assert false;
        }
      }
    }
  }

  lemma {:induction false} FullStays(m: Bindings, max: nat, requests: seq<Request>)
    requires |m| == max
    ensures InstallAll(m, max, requests) == m
    decreases |requests|
  {
    if requests != [] { FullStays(m, max, requests[1..]); }
  }

  /** A name that was asked for is unbound only because the table is full. */
  lemma {:induction false} UnboundMeansFull(m: Bindings, max: nat, requests: seq<Request>, key: string)
    requires |m| <= max && Asked(requests, key) && key !in InstallAll(m, max, requests)
    ensures |InstallAll(m, max, requests)| == max
    decreases |requests|
  {
    var rest, m' := requests[1..], InstallSpec(m, max, requests[0].name, requests[0].binding).0;
    BindingsStay(m', max, rest);
    if Key(requests[0].name) == key {
      FullStays(m, max, rest);
    } else {
      assert Asked(rest, key) by { assert Key(rest[FirstAsked(requests, key) - 1].name) == key; }
      UnboundMeansFull(m', max, rest, key);
    }
  }

  lemma {:induction false} InstallConcat(m: Bindings, max: nat, a: seq<Request>, b: seq<Request>)
    ensures InstallAll(m, max, a + b) == InstallAll(InstallAll(m, max, a), max, b)
    decreases |a|
  {
    if a == [] {
      assert a + b == b;
    } else {
      assert (a + b)[1..] == a[1..] + b;
      InstallConcat(InstallSpec(m, max, a[0].name, a[0].binding).0, max, a[1..], b);
    }
  }

  /** What the shell does with its table: install one command or a list of them, or list the commands. */
  datatype Action = One(request: Request) | List(requests: seq<Request>) | ShowHelp

  function RequestsIn(script: seq<Action>): seq<Request> {
    if script == [] then []
    else
      var last := script[|script| - 1];
      RequestsIn(script[..|script| - 1]) +
      match last
      case One(request) => [request]
      case List(requests) => requests
      case ShowHelp => []
  }

  lemma RequestsMore(script: seq<Action>, i: nat)
    requires i < |script|
    ensures RequestsIn(script[..i + 1]) == RequestsIn(script[..i]) + RequestsIn([script[i]])
    ensures RequestsIn([script[i]]) ==
            match script[i] case One(request) => [request] case List(requests) => requests case ShowHelp => []
  {
    assert script[..i + 1][..i] == script[..i];
    assert [script[i]][..0] == [];
  }

  // ---------------------------------------------------------------- the array holds the map

  predicate Entry(c: Cmd, m: Bindings) {
    c.str in m && m[c.str] == Binding(c.cb, c.execType)
  }

  ghost predicate Holds(s: seq<Cmd>, m: Bindings) {
    && |s| == |m|
    && (forall i | 0 <= i < |s| :: Entry(s[i], m) && Key(s[i].str) == s[i].str)
    && (forall i, j | 0 <= i < j < |s| :: s[i].str != s[j].str)
    && (forall k | k in m :: Listed(s, k))
  }

  ghost predicate Listed(s: seq<Cmd>, name: string) { exists i :: 0 <= i < |s| && s[i].str == name }

  lemma {:induction false} AtMostOnce(s: seq<Cmd>, c: Cmd)
    requires forall i, j | 0 <= i < j < |s| :: s[i].str != s[j].str
    ensures multiset(s)[c] <= 1
  {
    if s != [] {
      var n := |s| - 1;
      assert s == s[..n] + [s[n]];
      AtMostOnce(s[..n], c);
      if s[n] == c {
        assert forall i | 0 <= i < n :: s[..n][i] != c;
        assert c !in multiset(s[..n]);
      }
    }
  }

  lemma AtLeastTwice(s: seq<Cmd>, i: nat, j: nat)
    requires i < j < |s| && s[i] == s[j]
    ensures multiset(s)[s[i]] >= 2
  {
    assert s == s[..j] + s[j..];
    assert s[..j][i] in multiset(s[..j]) && s[j..][0] in multiset(s[j..]);
  }

  lemma HoldsCount(s: seq<Cmd>, m: Bindings)
    requires Holds(s, m)
    ensures |s| == |m|
  {
  }

  /** Sorting moves entries without changing the map. */
  lemma RearrangedHolds(s: seq<Cmd>, t: seq<Cmd>, m: Bindings)
    requires Holds(s, m) && Perm(s, t)
    ensures Holds(t, m)
  {
    forall i | 0 <= i < |t| ensures Entry(t[i], m) && Key(t[i].str) == t[i].str {
      assert t[i] in multiset(t);
      assert t[i] in s;
    }
    forall i, j | 0 <= i < j < |t| ensures t[i].str != t[j].str {
      if t[i].str == t[j].str {
        assert Entry(t[i], m) && Entry(t[j], m);
        AtLeastTwice(t, i, j);
        AtMostOnce(s, t[i]);
      }
    }
    forall k | k in m ensures Listed(t, k) {
      assert Listed(s, k);
      var i :| 0 <= i < |s| && s[i].str == k;
      assert s[i] in multiset(s);
      assert s[i] in t;
    }
  }

  /** A listing of exactly the bound names, each once. */
  ghost predicate Lists(listing: seq<string>, m: Bindings) {
    && |listing| == |m| && (forall i | 0 <= i < |listing| :: listing[i] in m)
    && (forall i, j | 0 <= i < j < |listing| :: listing[i] != listing[j])
  }

  lemma HeldIsListed(s: seq<Cmd>, m: Bindings, listing: seq<string>)
    requires Holds(s, m) && |listing| == |s| && forall i | 0 <= i < |s| :: listing[i] == s[i].str
    ensures Lists(listing, m)
  {
    forall i | 0 <= i < |listing| ensures listing[i] in m { assert Entry(s[i], m); }
  }

  lemma KeyOfKey(name: string)
    ensures Key(Key(name)) == Key(name)
  {
  }

  lemma AppendedHolds(s: seq<Cmd>, m: Bindings, name: string, b: Binding)
    requires Holds(s, m) && Key(name) !in m
    ensures Holds(s + [Cmd(Key(name), b.cb, b.execType)], m[Key(name) := b])
  {
    hide Key, Listed;
    KeyOfKey(name);
    var key := Key(name);
    var c := Cmd(key, b.cb, b.execType);
    var t, m' := s + [c], m[key := b];
    forall i | 0 <= i < |t| ensures Entry(t[i], m') && Key(t[i].str) == t[i].str && (i < |s| ==> t[i].str != key) {
      if i < |s| { assert Entry(s[i], m) && t[i] == s[i]; }
    }
    forall k | k in m' ensures Listed(t, k) {
      AppendedLists(s, c, k);
    }
  }

  lemma AppendedLists(s: seq<Cmd>, c: Cmd, name: string)
    ensures Listed(s + [c], c.str) && (Listed(s, name) ==> Listed(s + [c], name))
  {
    assert (s + [c])[|s|] == c;
    if Listed(s, name) {
      var i :| 0 <= i < |s| && s[i].str == name;
      assert (s + [c])[i].str == name;
    }
  }

  /** tash_cmds_info and is_sorted_list. `bindings` is the map the table stands for. */
  class CommandTable {
    const cmd: array<Cmd>
    var count: nat
    var isSortedList: bool
    ghost var bindings: Bindings

    ghost predicate Valid()
      reads this, cmd
    {
      && count <= cmd.Length
      && Holds(Front(cmd, count), bindings)
      && (isSortedList && Agreeing(Front(cmd, count)) ==> GapSorted(Front(cmd, count), 1))
    }

    constructor (max: nat)
      ensures Valid() && fresh(cmd) && cmd.Length == max && bindings == map[]
    {
      cmd := new Cmd[max](_ => Cmd("", 0, 0));
      count, isSortedList, bindings := 0, false, map[];
      new;
      assert Front(cmd, 0) == [];
    }

    /** The strncmp scan shared by install and execute. */
    method Search(name: string) returns (i: nat)
      requires Valid()
      ensures i <= count
      ensures i < count ==>
                && cmd[i].str == Key(name) && Key(name) in bindings
                && bindings[Key(name)] == Binding(cmd[i].cb, cmd[i].execType)
      ensures i == count ==> Key(name) !in bindings
    {
      i := 0;
      ghost var s := Front(cmd, count);
      while i < count
        invariant i <= count
        invariant forall j | 0 <= j < i :: s[j].str != Key(name)
      {
        StrncmpComparesPrefixes(name, cmd[i].str, MAXSTRLENGTH - 1);
        assert Entry(s[i], bindings) && Key(s[i].str) == s[i].str;
        if StrncmpIsZero(name, cmd[i].str, MAXSTRLENGTH - 1) {
          return;
        }
        i := i + 1;
      }
    }

    /** tash_cmd_install. */
    method Install(name: string, cb: int, threadExec: int) returns (ret: int)
      requires Valid()
      modifies this, cmd
      ensures Valid()
      ensures (bindings, ret) == InstallSpec(old(bindings), cmd.Length, name, Binding(cb, threadExec))
      ensures ret == if old(count) == cmd.Length then -1 else if Key(name) in old(bindings) then -2 else 0
    {
      hide Holds, GapSorted;
      HoldsCount(Front(cmd, count), bindings);
      if cmd.Length == count {
        return -1;
      }
      var i := Search(name);
      if i < count {
        return -2;
      }
      AppendedHolds(Front(cmd, count), bindings, name, Binding(cb, threadExec));
      cmd[count] := Cmd(Key(name), cb, threadExec);
      assert Front(cmd, count + 1) == old(Front(cmd, count)) + [Cmd(Key(name), cb, threadExec)];
      count := count + 1;
      isSortedList := false;
      bindings := bindings[Key(name) := Binding(cb, threadExec)];
      return 0;
    }

    /** tash_cmdlist_install; return codes of the single installs are ignored. */
    method InstallList(requests: seq<Request>)
      requires Valid()
      modifies this, cmd
      ensures Valid() && bindings == InstallAll(old(bindings), cmd.Length, requests)
    {
      var i := 0;
      while i < |requests|
        invariant i <= |requests| && Valid()
        invariant InstallAll(bindings, cmd.Length, requests[i..]) == InstallAll(old(bindings), cmd.Length, requests)
      {
        var _ := Install(requests[i].name, requests[i].binding.cb, requests[i].binding.execType);
        assert requests[i..][1..] == requests[i + 1..];
        i := i + 1;
      }
    }

    /** tash_help: sorts on demand, never changes a binding, and prints the names in table order. */
    method Help() returns (listing: seq<string>)
      requires Valid()
      modifies this, cmd
      ensures Valid() && isSortedList && bindings == old(bindings) && count == old(count)
      ensures |listing| == count && (forall i | 0 <= i < count :: listing[i] == Front(cmd, count)[i].str)
      ensures Lists(listing, bindings)
    {
      hide Holds, GapSorted, SortedForAll, Perm, Gaps, Front, Agreeing, Lists;
      if !isSortedList {
        ghost var before := Front(cmd, count);
        SortCmds(cmd, count);
        RearrangedHolds(before, Front(cmd, count), bindings);
        AgreeingRearranged(before, Front(cmd, count));
        isSortedList := true;
      }
      listing := PrintNames();
      HeldIsListed(Front(cmd, count), bindings, listing);
    }

    method PrintNames() returns (listing: seq<string>)
      requires Valid()
      ensures |listing| == count && (forall i | 0 <= i < count :: listing[i] == Front(cmd, count)[i].str)
    {
      hide Holds, GapSorted;
      listing := [];
      var i := 0;
      while i < count
        invariant |listing| == i <= count
        invariant forall j | 0 <= j < i :: listing[j] == cmd[j].str
      {
        listing := listing + [cmd[i].str];
        i := i + 1;
      }
    }

    /** Any history of the table: whatever is installed and however often help sorts it in between, it
        stands for the map that the requests alone would give, and each help lists exactly the names
        bound by then. */
    method Perform(script: seq<Action>) returns (listings: seq<seq<string>>)
      requires Valid()
      modifies this, cmd
      ensures Valid() && bindings == InstallAll(old(bindings), cmd.Length, RequestsIn(script))
      ensures |listings| == |script|
      ensures forall i | 0 <= i < |script| && script[i].ShowHelp? ::
                Lists(listings[i], InstallAll(old(bindings), cmd.Length, RequestsIn(script[..i])))
    {
      hide Holds, GapSorted, Agreeing, InstallAll, RequestsIn, Lists;
      listings := [];
      InstallNothing(bindings, cmd.Length);
      assert script[..0] == [];
      for i := 0 to |script|
        invariant Valid() && bindings == InstallAll(old(bindings), cmd.Length, RequestsIn(script[..i]))
        invariant |listings| == i
        invariant forall j | 0 <= j < i && script[j].ShowHelp? ::
                    Lists(listings[j], InstallAll(old(bindings), cmd.Length, RequestsIn(script[..j])))
      {
        var listing := [];
        RequestsMore(script, i);
        InstallConcat(old(bindings), cmd.Length, RequestsIn(script[..i]), RequestsIn([script[i]]));
        match script[i] {
          case One(request) =>
            InstallOne(bindings, cmd.Length, request);
            var _ := Install(request.name, request.binding.cb, request.binding.execType);
          case List(requests) => InstallList(requests);
          case ShowHelp =>
            InstallNothing(bindings, cmd.Length);
            listing := Help();
        }
        listings := listings + [listing];
      }
      assert script[..|script|] == script;
    }

    static lemma InstallOne(m: Bindings, max: nat, r: Request)
      ensures InstallAll(m, max, [r]) == InstallSpec(m, max, r.name, r.binding).0
    {
      assert [r][1..] == [];
    }

    static lemma InstallNothing(m: Bindings, max: nat)
      ensures InstallAll(m, max, []) == m && RequestsIn([]) == []
    {
    }

    /** tash_execute_cmd up to the call it makes. */
    method Execute(name: string) returns (d: Dispatch)
      requires Valid()
      ensures Key(name) !in bindings ==> d == NotRegistered
      ensures Key(name) in bindings ==>
                var b := bindings[Key(name)];
                d == if b.execType == EXECMD_SYNC then CallNow(b.cb)
                     else if b.execType == EXECMD_ASYNC then StartTask(b.cb) else WrongType
    {
      var i := Search(name);
      if i == count {
        return NotRegistered;
      }
      if cmd[i].execType == EXECMD_SYNC {
        return CallNow(cmd[i].cb);
      } else if cmd[i].execType == EXECMD_ASYNC {
        return StartTask(cmd[i].cb);
      } else {
        return WrongType;
      }
    }
  }
}
