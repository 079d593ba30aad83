/** The Shellsort of apps/shell/tash_command.c and why a later pass never undoes an earlier
    one (Theorem K in section 5.2.1 of Knuth, The Art of Computer Programming, volume 3). */
module TashSort {
  import Ring

  /** One entry of the command table: the stored name, the callback and its execution type. */
  datatype Cmd = Cmd(str: string, cb: int, execType: int)

  // ---------------------------------------------------------------- strcmp

  /** strcmp(a, b) < 0 on NUL-free strings, as ISO C defines it. */
  predicate Less(a: string, b: string) {
    b != [] && (a == [] || a[0] < b[0] || (a[0] == b[0] && Less(a[1..], b[1..])))
  }

  /** Which is: `a` is a proper beginning of `b`, or has the smaller character where they first differ. */
  ghost predicate DiffersAt(a: string, b: string, k: nat) {
    && k <= |a| && k <= |b| && a[..k] == b[..k]
    && (if k == |a| then k < |b| else k < |b| && a[k] < b[k])
  }

  lemma {:induction false} LessIff(a: string, b: string)
    ensures Less(a, b) <==> exists k: nat :: DiffersAt(a, b, k)
    decreases |a|
  {
    if a != [] && b != [] && a[0] == b[0] {
      LessIff(a[1..], b[1..]);
      if k: nat :| DiffersAt(a, b, k) {
        assert k > 0 && a[..k][1..] == a[1..][..k - 1] && b[..k][1..] == b[1..][..k - 1];
        assert DiffersAt(a[1..], b[1..], k - 1);
      }
      if k: nat :| DiffersAt(a[1..], b[1..], k) {
        assert a[..k + 1] == [a[0]] + a[1..][..k] && b[..k + 1] == [b[0]] + b[1..][..k];
        assert DiffersAt(a, b, k + 1);
      }
    } else {
      assert DiffersAt(a, b, 0) <==> b != [] && (a == [] || a[0] < b[0]);
      assert forall k: nat | k > 0 && k <= |a| && k <= |b| && a[..k] == b[..k] :: a[..k][0] == b[..k][0];
    }
  }

  predicate Le(a: string, b: string) { !Less(b, a) }

  lemma {:induction false} LeTotal(a: string, b: string)
    ensures Le(a, b) || Le(b, a)
  {
    if a != [] && b != [] { LeTotal(a[1..], b[1..]); }
  }

  lemma LessIsLe(a: string, b: string)
    requires Less(a, b)
    ensures Le(a, b)
  {
    LeTotal(a, b);
  }

  lemma {:induction false} LeTransitive(a: string, b: string, c: string)
    requires Le(a, b) && Le(b, c)
    ensures Le(a, c)
  {
    if a != [] && b != [] && c != [] && a[0] == b[0] == c[0] {
      LeTransitive(a[1..], b[1..], c[1..]);
    }
  }

  // ---------------------------------------------------------------- the library's strcmp

  /** A NUL-free string of bytes. */
  predicate Bytes(s: string) { forall i | 0 <= i < |s| :: 0 < s[i] as int < 256 }

  /** The first byte, the terminating NUL included. */
  function First(s: string): int { if s == [] then 0 else s[0] as int }

  /** Assignment of a difference of two bytes to a signed char. */
  function Narrowed(d: int): int { (d + 128) % 256 - 128 }

  /** strcmp as lib_strcmp.c computes it. Strings of bytes cannot be equal so far and end one before
      the other, so the test of `b` only makes the function total. */
  function LibStrcmp(a: string, b: string): int {
    var result := Narrowed(First(a) - First(b));
    if result != 0 || a == [] || b == [] then result else LibStrcmp(a[1..], b[1..])
  }

  /** How far apart the first differing bytes are. */
  function Difference(a: string, b: string): (d: int)
    requires Bytes(a) && Bytes(b)
    ensures -256 < d < 256
  {
    if First(a) != First(b) || a == [] then First(a) - First(b) else Difference(a[1..], b[1..])
  }

  lemma {:induction false} DifferenceDecides(a: string, b: string)
    requires Bytes(a) && Bytes(b)
    ensures Less(a, b) <==> Difference(a, b) < 0
    ensures LibStrcmp(a, b) == Narrowed(Difference(a, b))
  {
    if a != [] && First(a) == First(b) { DifferenceDecides(a[1..], b[1..]); }
  }

  /** The library's answer has the sign ISO C demands. */
  predicate Agree(a: string, b: string) { LibStrcmp(a, b) < 0 <==> Less(a, b) }

  /** It does exactly when the difference of the first differing bytes fits a signed char. */
  lemma {:induction false} StrcmpAgreesIff(a: string, b: string)
    requires Bytes(a) && Bytes(b)
    ensures Agree(a, b) <==> -128 <= Difference(a, b) < 128
  {
    hide LibStrcmp, Less, Difference;
    DifferenceDecides(a, b);
  }

  predicate SevenBit(s: string) { forall i | 0 <= i < |s| :: 0 < s[i] as int < 128 }

  lemma {:induction false} SevenBitDifference(a: string, b: string)
    requires SevenBit(a) && SevenBit(b)
    ensures Bytes(a) && Bytes(b) && -128 < Difference(a, b) < 128
  {
    if a != [] && First(a) == First(b) { SevenBitDifference(a[1..], b[1..]); }
  }

  /** With a longer reach the library's answers are no order at all: three names can each precede the
      next in a circle, so that no arrangement of them is sorted. */
  lemma LibraryOrderCycles()
    ensures var a, b, c := "!", "v", ['\U{00CB}'];
            Bytes(a) && Bytes(b) && Bytes(c) && LibStrcmp(a, b) < 0 && LibStrcmp(b, c) < 0 && LibStrcmp(c, a) < 0
  {
  }

  // ---------------------------------------------------------------- sorted for a gap

  /** Elements `h` apart are in order. */
  predicate GapSorted(s: seq<Cmd>, h: nat) {
    forall p | h <= p < |s| :: Le(s[p - h].str, s[p].str)
  }

  predicate SameClass(p: int, q: int, h: nat)
    requires h > 0
  {
    (p - q) % h == 0
  }

  lemma NextInClass(p: int, q: int, h: nat)
    requires h > 0
    ensures SameClass(p, q, h) <==> SameClass(p - h, q, h)
    ensures SameClass(p, q, h) <==> SameClass(p, q + h, h)
    ensures SameClass(p, q, h) && p > q ==> p >= q + h
  {
    var d := p - q;
    assert d == h * (d / h) + d % h;
    assert (d - h) == h * (d / h - 1) + d % h;
    if 0 < d < h { SmallMod(d, h); }
    Ring.ModUnique(d - h, h, d / h - 1, d % h);
  }

  lemma SmallMod(d: int, h: nat)
    requires 0 <= d < h
    ensures d % h == d
  {
  }

  lemma {:induction false} GapSortedFar(s: seq<Cmd>, h: nat, i: nat, p: nat)
    requires h > 0 && GapSorted(s, h) && i <= p < |s| && SameClass(p, i, h)
    ensures Le(s[i].str, s[p].str)
    decreases p
  {
    if i == p {
      LeTotal(s[i].str, s[i].str);
    } else {
      NextInClass(p, i, h);
      GapSortedFar(s, h, i, p - h);
      LeTransitive(s[i].str, s[p - h].str, s[p].str);
    }
  }

  // ---------------------------------------------------------------- counting a class

  /** How many positions below `n` lie in the class of `i`. */
  ghost function Num(h: nat, i: int, n: nat): nat
    requires h > 0
  {
    if n == 0 then 0 else Num(h, i, n - 1) + if SameClass(n - 1, i, h) then 1 else 0
  }

  /** How many of them hold a name not above `v`. */
  ghost function Count(s: seq<Cmd>, h: nat, i: int, v: string, n: nat): nat
    requires h > 0 && n <= |s|
  {
    if n == 0 then 0 else Count(s, h, i, v, n - 1) + Hit(s[n - 1], h, i, v, n - 1)
  }

  ghost function Hit(c: Cmd, h: nat, i: int, v: string, p: int): nat
    requires h > 0
  {
    if SameClass(p, i, h) && Le(c.str, v) then 1 else 0
  }

  /** `t` rearranges `s` without moving anything to another class. */
  ghost predicate ClassPerm(s: seq<Cmd>, t: seq<Cmd>, h: nat)
    requires h > 0
  {
    && |s| == |t| && multiset(s) == multiset(t)
    && forall i: int, v: string :: Count(s, h, i, v, |s|) == Count(t, h, i, v, |t|)
  }

  lemma ClassPermReflexive(s: seq<Cmd>, h: nat)
    requires h > 0
    ensures ClassPerm(s, s, h)
  {
  }

  lemma ClassPermTransitive(s: seq<Cmd>, t: seq<Cmd>, u: seq<Cmd>, h: nat)
    requires h > 0 && ClassPerm(s, t, h) && ClassPerm(t, u, h)
    ensures ClassPerm(s, u, h)
  {
  }

  lemma {:induction false} CountMonotone(s: seq<Cmd>, h: nat, i: int, v: string, m: nat, n: nat)
    requires h > 0 && m <= n <= |s|
    ensures Count(s, h, i, v, m) <= Count(s, h, i, v, n)
  {
    if m < n { CountMonotone(s, h, i, v, m, n - 1); }
  }

  /** In a gap-sorted sequence all of the class up to `p` counts against the name at `p`. */
  lemma {:induction false} CountBelow(t: seq<Cmd>, h: nat, p: nat, n: nat)
    requires h > 0 && GapSorted(t, h) && n <= p + 1 <= |t|
    ensures Count(t, h, p, t[p].str, n) == Num(h, p, n)
  {
    if n > 0 {
      CountBelow(t, h, p, n - 1);
      if SameClass(n - 1, p, h) {
        ClassSymmetric(n - 1, p, h);
        GapSortedFar(t, h, n - 1, p);
      }
    }
  }

  lemma ClassSymmetric(p: int, q: int, h: nat)
    requires h > 0 && SameClass(p, q, h)
    ensures SameClass(q, p, h)
  {
    var d := p - q;
    Ring.ModUnique(-d, h, -(d / h), 0);
  }

  /** In a gap-sorted sequence nothing of the class from `i` on counts against a smaller name. */
  lemma {:induction false} CountAbove(t: seq<Cmd>, h: nat, i: nat, v: string, n: nat)
    requires h > 0 && GapSorted(t, h) && i < |t| && n <= |t| && !Le(t[i].str, v)
    ensures Count(t, h, i, v, n) <= Num(h, i, i)
    ensures n <= i ==> Count(t, h, i, v, n) <= Num(h, i, n)
  {
    if n > 0 {
      CountAbove(t, h, i, v, n - 1);
      if n - 1 < i {
        NumMonotone(h, i, n, i);
      } else if SameClass(n - 1, i, h) && Le(t[n - 1].str, v) {
        GapSortedFar(t, h, i, n - 1);
        LeTransitive(t[i].str, t[n - 1].str, v);
      }
    }
  }

  lemma {:induction false} NumMonotone(h: nat, i: int, m: nat, n: nat)
    requires h > 0 && m <= n
    ensures Num(h, i, m) <= Num(h, i, n)
  {
    if m < n { NumMonotone(h, i, m, n - 1); }
  }

  /** Shifting by `k` maps the class of `p - k` onto the part of the class of `p` from `k` on. */
  lemma {:induction false} NumShift(h: nat, p: nat, k: nat, n: nat)
    requires h > 0 && k <= n
    ensures Num(h, p, n) == Num(h, p, k) + Num(h, p - k, n - k)
  {
    if n > k { NumShift(h, p, k, n - 1); }
  }

  /** In a k-sorted sequence every counted position from `k` on has a counted partner `k` before it. */
  lemma {:induction false} CountShift(s: seq<Cmd>, h: nat, p: nat, k: nat, v: string, n: nat)
    requires h > 0 && GapSorted(s, k) && k <= n <= |s|
    ensures Count(s, h, p, v, n) <= Num(h, p, k) + Count(s, h, p - k, v, n - k)
  {
    if n == k {
      CountAtMostNum(s, h, p, v, k);
    } else {
      CountShift(s, h, p, k, v, n - 1);
      if Le(s[n - 1].str, v) {
        assert Le(s[n - 1 - k].str, s[n - 1].str);
        LeTransitive(s[n - 1 - k].str, s[n - 1].str, v);
      }
    }
  }

  lemma {:induction false} CountAtMostNum(s: seq<Cmd>, h: nat, i: int, v: string, n: nat)
    requires h > 0 && n <= |s|
    ensures Count(s, h, i, v, n) <= Num(h, i, n)
  {
    if n > 0 { CountAtMostNum(s, h, i, v, n - 1); }
  }

  /** Theorem K: h-sorting a k-sorted sequence leaves it k-sorted, for any two gaps. */
  lemma TheoremK(s: seq<Cmd>, t: seq<Cmd>, k: nat, h: nat)
    requires h > 0 && GapSorted(s, k) && GapSorted(t, h) && ClassPerm(s, t, h)
    ensures GapSorted(t, k)
  {
    forall p | k <= p < |t| ensures Le(t[p - k].str, t[p].str) {
      OneStepOfTheoremK(s, t, k, h, p);
    }
  }

  lemma OneStepOfTheoremK(s: seq<Cmd>, t: seq<Cmd>, k: nat, h: nat, p: nat)
    requires h > 0 && GapSorted(s, k) && GapSorted(t, h) && ClassPerm(s, t, h)
    requires k <= p < |t|
    ensures Le(t[p - k].str, t[p].str)
  {
    var i, v, n := p - k, t[p].str, |t|;
    CountBelow(t, h, p, p + 1);
    CountMonotone(t, h, p, v, p + 1, n);
    CountShift(s, h, p, k, v, n);
    CountMonotone(s, h, i, v, n - k, n);
    NumShift(h, p, k, p + 1);
    SmallMod(0, h);
    assert Num(h, i, i + 1) == Num(h, i, i) + 1;
    if !Le(t[i].str, v) {
      CountAbove(t, h, i, v, n);
      assert false;
    }
  }

  // ---------------------------------------------------------------- swaps inside a class

  ghost function Swapped(s: seq<Cmd>, a: nat, b: nat): (t: seq<Cmd>)
    requires a < b < |s|
    ensures |t| == |s| && t[a] == s[b] && t[b] == s[a] && forall p | 0 <= p < |s| && p != a && p != b :: t[p] == s[p]
  {
    s[a := s[b]][b := s[a]]
  }

  lemma {:induction false} SwapCount(s: seq<Cmd>, a: nat, b: nat, h: nat, i: int, v: string, n: nat)
    requires h > 0 && a < b < |s| && b == a + h && n <= |s|
    ensures Count(Swapped(s, a, b), h, i, v, n) == Count(s, h, i, v, n)
            + if a < n <= b then Hit(s[b], h, i, v, a) - Hit(s[a], h, i, v, a) else 0
  {
    NextInClass(b, i, h);
    if n > 0 { SwapCount(s, a, b, h, i, v, n - 1); }
  }

  lemma SwapIsClassPerm(s: seq<Cmd>, a: nat, b: nat, h: nat)
    requires h > 0 && a < b < |s| && b == a + h
    ensures ClassPerm(s, Swapped(s, a, b), h)
  {
    var t := Swapped(s, a, b);
    forall i: int, v: string ensures Count(s, h, i, v, |s|) == Count(t, h, i, v, |t|) {
      SwapCount(s, a, b, h, i, v, |s|);
    }
  }

  // ---------------------------------------------------------------- the sort

  /** On the names of the table the library's strcmp is the order of ISO C. */
  ghost predicate Agreeing(s: seq<Cmd>) {
    forall c, d | c in s && d in s :: Agree(c.str, d.str)
  }

  lemma AgreeingPerm(s: seq<Cmd>, t: seq<Cmd>)
    requires multiset(s) == multiset(t)
    ensures Agreeing(s) <==> Agreeing(t)
  {
    assert forall c :: c in s <==> c in multiset(s);
    assert forall c :: c in t <==> c in multiset(t);
  }

  /** That is so exactly when any two names first differ by what fits a signed char; seven-bit names
      always do. */
  lemma {:induction false} AgreeingIff(s: seq<Cmd>)
    requires forall c | c in s :: Bytes(c.str)
    ensures Agreeing(s) <==> forall c, d | c in s && d in s :: -128 <= Difference(c.str, d.str) < 128
    ensures (forall c | c in s :: SevenBit(c.str)) ==> Agreeing(s)
  {
    hide Agree, Difference, Bytes, SevenBit;
    forall c, d | c in s && d in s
      ensures Agree(c.str, d.str) <==> -128 <= Difference(c.str, d.str) < 128
      ensures SevenBit(c.str) && SevenBit(d.str) ==> Agree(c.str, d.str)
    {
      StrcmpAgreesIff(c.str, d.str);
      if SevenBit(c.str) && SevenBit(d.str) { SevenBitDifference(c.str, d.str); }
    }
  }

  ghost predicate SortedUpTo(s: seq<Cmd>, gap: nat, i: nat)
    requires i <= |s|
  {
    forall p | gap <= p < i :: Le(s[p - gap].str, s[p].str)
  }

  /** Between two shifts: with the saved entry put back at `j`, everything up to `i` is
      gap-sorted except possibly at `j` itself. */
  ghost predicate SortedButAt(s: seq<Cmd>, gap: nat, i: nat, j: nat)
    requires j <= i < |s|
  {
    && (forall p | gap <= p <= i && p != j :: Le(s[p - gap].str, s[p].str))
    && (gap <= j && j + gap <= i ==> Le(s[j - gap].str, s[j + gap].str))
  }

  lemma ShiftStep(s: seq<Cmd>, gap: nat, i: nat, j: nat)
    requires 0 < gap <= j <= i < |s| && SortedButAt(s, gap, i, j) && Less(s[j].str, s[j - gap].str)
    ensures SortedButAt(Swapped(s, j - gap, j), gap, i, j - gap)
  {
    hide Less;
    LessIsLe(s[j].str, s[j - gap].str);
  }

  lemma ShiftStart(s: seq<Cmd>, gap: nat, i: nat)
    requires 0 < gap <= i < |s| && SortedUpTo(s, gap, i)
    ensures SortedButAt(s, gap, i, i)
  {
    hide Less;
  }

  lemma ShiftEnd(s: seq<Cmd>, gap: nat, i: nat, j: nat)
    requires 0 < gap && j <= i < |s| && SortedButAt(s, gap, i, j) && (j >= gap ==> Le(s[j - gap].str, s[j].str))
    ensures SortedUpTo(s, gap, i + 1)
  {
    hide Less;
  }

  /** The entries of the table that are in use. */
  ghost function Front(cmd: array<Cmd>, count: nat): (s: seq<Cmd>)
    requires count <= cmd.Length
    reads cmd
    ensures |s| == count
  {
    cmd[..count]
  }

  ghost predicate Perm(s: seq<Cmd>, t: seq<Cmd>) {
    |s| == |t| && multiset(s) == multiset(t)
  }

  lemma PassKeepsPerm(s: seq<Cmd>, t: seq<Cmd>, u: seq<Cmd>, h: nat)
    requires h > 0 && Perm(s, t) && ClassPerm(t, u, h)
    ensures Perm(s, u)
  {
  }

  /** What the comparison of the inner loop tells about the ISO order. */
  lemma CompareMeans(old_s: seq<Cmd>, s: seq<Cmd>, gap: nat, i: nat, j: nat)
    requires 0 < gap && i < |s| && j < |s| && ClassPerm(old_s, s, gap) && Agreeing(old_s)
    ensures LibStrcmp(s[i].str, s[j].str) < 0 <==> Less(s[i].str, s[j].str)
  {
    hide Less, LibStrcmp, Count;
    AgreeingPerm(old_s, s);
    assert s[i] in s && s[j] in s;
    assert Agree(s[i].str, s[j].str);
  }

  /** The state between two shifts: rearranged within classes and, where the comparison can be trusted,
      sorted up to `i` but for `j`. */
  ghost predicate Shifting(s0: seq<Cmd>, s: seq<Cmd>, gap: nat, i: nat, j: nat)
    requires 0 < gap && j <= i < |s|
  {
    ClassPerm(s0, s, gap) && (Agreeing(s0) ==> SortedButAt(s, gap, i, j))
  }

  lemma ShiftingStart(s: seq<Cmd>, gap: nat, i: nat)
    requires 0 < gap <= i < |s| && (Agreeing(s) ==> SortedUpTo(s, gap, i))
    ensures Shifting(s, s, gap, i, i)
  {
    hide ClassPerm, SortedButAt, SortedUpTo, Agreeing;
    ClassPermReflexive(s, gap);
    if Agreeing(s) { ShiftStart(s, gap, i); }
  }

  lemma ShiftingStep(s0: seq<Cmd>, s: seq<Cmd>, gap: nat, i: nat, j: nat)
    requires 0 < gap <= j <= i < |s| && Shifting(s0, s, gap, i, j) && LibStrcmp(s[j].str, s[j - gap].str) < 0
    ensures Shifting(s0, Swapped(s, j - gap, j), gap, i, j - gap)
  {
    hide Less, LibStrcmp, ClassPerm, SortedButAt, Agreeing, Swapped;
    if Agreeing(s0) {
      CompareMeans(s0, s, gap, j, j - gap);
      ShiftStep(s, gap, i, j);
    }
    SwapIsClassPerm(s, j - gap, j, gap);
    ClassPermTransitive(s0, s, Swapped(s, j - gap, j), gap);
  }

  lemma ShiftingEnd(s0: seq<Cmd>, s: seq<Cmd>, gap: nat, i: nat, j: nat)
    requires 0 < gap && j <= i < |s| && Shifting(s0, s, gap, i, j)
    requires j >= gap ==> LibStrcmp(s[j].str, s[j - gap].str) >= 0
    ensures ClassPerm(s0, s, gap) && (Agreeing(s0) ==> SortedUpTo(s, gap, i + 1))
  {
    hide Less, LibStrcmp, ClassPerm, SortedButAt, SortedUpTo, Agreeing;
    if Agreeing(s0) {
      if j >= gap { CompareMeans(s0, s, gap, j, j - gap); }
      ShiftEnd(s, gap, i, j);
    }
  }

  /** The two inner statements of the sort: shift larger names of the class up by `gap`
      until the name at `i` fits. */
  method InsertAt(cmd: array<Cmd>, count: nat, gap: nat, i: nat)
    requires count <= cmd.Length && 0 < gap <= i < count
    requires Agreeing(Front(cmd, count)) ==> SortedUpTo(Front(cmd, count), gap, i)
    modifies cmd
    ensures Agreeing(old(Front(cmd, count))) ==> SortedUpTo(Front(cmd, count), gap, i + 1)
    ensures ClassPerm(old(Front(cmd, count)), Front(cmd, count), gap)
    ensures forall p | count <= p < cmd.Length :: cmd[p] == old(cmd[p])
  {
    hide LibStrcmp, ClassPerm, SortedUpTo, Swapped, Agreeing, Shifting;
    var temp := cmd[i];
    var j := i;
    ghost var s := Front(cmd, count);
    ghost var s0 := s;
    ShiftingStart(s, gap, i);
    while j >= gap && LibStrcmp(temp.str, cmd[j - gap].str) < 0
      invariant 0 <= j <= i
      invariant |s| == count && s[j] == temp && forall p | 0 <= p < count && p != j :: cmd[p] == s[p]
      invariant forall p | count <= p < cmd.Length :: cmd[p] == old(cmd[p])
      invariant Shifting(s0, s, gap, i, j)
    {
      ShiftingStep(s0, s, gap, i, j);
      cmd[j] := cmd[j - gap];
      s := Swapped(s, j - gap, j);
      j := j - gap;
    }
    ShiftingEnd(s0, s, gap, i, j);
    cmd[j] := temp;
    assert Front(cmd, count) == s;
  }

  /** One pass: insertion sort of every class. */
  method GapPass(cmd: array<Cmd>, count: nat, gap: nat)
    requires count <= cmd.Length && 0 < gap
    modifies cmd
    ensures Agreeing(old(Front(cmd, count))) ==> GapSorted(Front(cmd, count), gap)
    ensures ClassPerm(old(Front(cmd, count)), Front(cmd, count), gap)
    ensures forall p | count <= p < cmd.Length :: cmd[p] == old(cmd[p])
  {
    hide ClassPerm, Agreeing, Less;
    ghost var s0 := Front(cmd, count);
    ClassPermReflexive(s0, gap);
    var i := gap;
    while i < count
      invariant gap <= i && (i <= count || i == gap)
      invariant i <= count && Agreeing(s0) ==> SortedUpTo(Front(cmd, count), gap, i)
      invariant ClassPerm(s0, Front(cmd, count), gap)
      invariant forall p | count <= p < cmd.Length :: cmd[p] == old(cmd[p])
    {
      ghost var before := Front(cmd, count);
      AgreeingClass(s0, before, gap);
      InsertAt(cmd, count, gap, i);
      ClassPermTransitive(s0, before, Front(cmd, count), gap);
      i := i + 1;
    }
  }

  lemma AgreeingClass(s: seq<Cmd>, t: seq<Cmd>, gap: nat)
    requires gap > 0 && ClassPerm(s, t, gap)
    ensures Agreeing(s) <==> Agreeing(t)
  {
    hide Count;
    AgreeingPerm(s, t);
  }

  function NextGap(gap: nat): (g: nat)
    ensures gap > 1 ==> 0 < g < gap
  {
    if gap * 5 / 11 > 1 then gap * 5 / 11 else 1
  }

  /** Five elevenths of the gap, rounded down, but at least 1. */
  lemma NextGapMeans(gap: nat)
    ensures var g := NextGap(gap); g >= 1 && (g > 1 ==> 11 * g <= 5 * gap < 11 * g + 11) && (g == 1 ==> 5 * gap < 22)
  {
  }

  /** The gaps used for a table of `count` entries. */
  function Gaps(count: nat): seq<nat> {
    if count <= 1 then [] else [NextGap(count)] + Gaps(NextGap(count))
  }

  /** The gaps strictly decrease from below `count` to 1. */
  lemma {:induction false} GapsEndWithOne(count: nat)
    requires count > 1
    ensures var g := Gaps(count);
            g != [] && g[|g| - 1] == 1 && g[0] < count && forall i | 0 < i < |g| :: g[i] < g[i - 1]
  {
    if NextGap(count) > 1 { GapsEndWithOne(NextGap(count)); }
  }

  ghost predicate SortedForAll(s: seq<Cmd>, gaps: seq<nat>) {
    forall k | 0 <= k < |gaps| :: GapSorted(s, gaps[k])
  }

  lemma PassKeepsGaps(s: seq<Cmd>, t: seq<Cmd>, gaps: seq<nat>, gap: nat)
    requires gap > 0 && SortedForAll(s, gaps) && GapSorted(t, gap) && ClassPerm(s, t, gap)
    ensures SortedForAll(t, gaps + [gap])
  {
    forall k | 0 <= k < |gaps| ensures GapSorted(t, gaps[k]) {
      TheoremK(s, t, gaps[k], gap);
    }
  }

  lemma PermReflexive(s: seq<Cmd>)
    ensures Perm(s, s)
  {
  }

  lemma SortedForNone(s: seq<Cmd>)
    ensures SortedForAll(s, [])
  {
  }

  lemma GapsStep(used: seq<nat>, gap: nat)
    requires gap > 1
    ensures used + Gaps(gap) == used + [NextGap(gap)] + Gaps(NextGap(gap))
  {
  }

  lemma GapsDone(s: seq<Cmd>, used: seq<nat>, gap: nat)
    requires gap <= 1 && used + Gaps(gap) == Gaps(|s|) && SortedForAll(s, used)
    ensures GapSorted(s, 1) && SortedForAll(s, Gaps(|s|))
  {
    assert used == Gaps(|s|);
    if |s| > 1 { GapsEndWithOne(|s|); }
  }

  lemma AgreeingRearranged(s: seq<Cmd>, t: seq<Cmd>)
    requires Perm(s, t)
    ensures Agreeing(s) <==> Agreeing(t)
  {
    AgreeingPerm(s, t);
  }

  /** tash_sort_cmds, comparing with the library's strcmp. The first `count` entries end up rearranged but
      otherwise unchanged; where the library agrees with ISO C on their names they end up sorted,
      and sorted for every gap that was used on the way. */
  method SortCmds(cmd: array<Cmd>, count: nat)
    requires count <= cmd.Length
    modifies cmd
    ensures Agreeing(old(Front(cmd, count))) ==>
              GapSorted(Front(cmd, count), 1) && SortedForAll(Front(cmd, count), Gaps(count))
    ensures Perm(old(Front(cmd, count)), Front(cmd, count))
    ensures forall p | count <= p < cmd.Length :: cmd[p] == old(cmd[p])
  {
    hide GapSorted, ClassPerm, Front, Perm, Gaps, SortedForAll, Agreeing;
    ghost var s0 := Front(cmd, count);
    PermReflexive(s0);
    SortedForNone(s0);
    ghost var used := [];
    var gap := count;
    while gap > 1
      invariant used + Gaps(gap) == Gaps(count) && Perm(s0, Front(cmd, count))
      invariant Agreeing(s0) ==> SortedForAll(Front(cmd, count), used)
      invariant forall p | count <= p < cmd.Length :: cmd[p] == old(cmd[p])
    {
      ghost var before := Front(cmd, count);
      ghost var gap0 := gap;
      gap := if gap * 5 / 11 > 1 then gap * 5 / 11 else 1;
      AgreeingRearranged(s0, before);
      GapPass(cmd, count, gap);
      if Agreeing(s0) { PassKeepsGaps(before, Front(cmd, count), used, gap); }
      PassKeepsPerm(s0, before, Front(cmd, count), gap);
      GapsStep(used, gap0);
      used := used + [gap];
    }
    if Agreeing(s0) { GapsDone(Front(cmd, count), used, gap); }
  }

  /** Where the two agree, a table is in order for one exactly when it is for the other. */
  lemma {:induction false} SortedForLibrary(s: seq<Cmd>)
    requires Agreeing(s)
    ensures GapSorted(s, 1) <==> forall p | 1 <= p < |s| :: LibStrcmp(s[p].str, s[p - 1].str) >= 0
  {
    hide LibStrcmp, Less;
    forall p | 1 <= p < |s| ensures Agree(s[p].str, s[p - 1].str) {
      assert s[p] in s && s[p - 1] in s;
    }
  }
}
