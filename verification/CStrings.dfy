/** NUL-terminated strings in memory, as C sees them. */
module CStrings {

  const NUL: char := '\0'

  ghost predicate NulFreeIn(b: string, lo: int, hi: int)
    requires 0 <= lo && hi <= |b|
  {
    forall i | lo <= i < hi :: b[i] != NUL
  }

  ghost predicate NulFree(s: string) { NulFreeIn(s, 0, |s|) }

  /** The string that starts at the first byte of `s`. */
  function CString(s: string): string {
    if s == [] || s[0] == NUL then [] else [s[0]] + CString(s[1..])
  }

  lemma {:induction false} CStringStops(a: string, b: string)
    requires NulFree(a)
    ensures CString(a + b) == a + CString(b)
    decreases |a|
  {
    if a == [] {
      assert a + b == b;
    } else {
      assert (a + b)[1..] == a[1..] + b;
      CStringStops(a[1..], b);
    }
  }

  /** What follows a string in memory matters only if no NUL ends it. */
  lemma {:induction false} CStringPrefix(a: string, b: string)
    ensures if NulFree(a) then CString(a) == a && CString(a + b) == a + CString(b) else CString(a + b) == CString(a)
  {
    hide NulFree;
    if NulFree(a) {
      CStringStops(a, b);
      CStringStops(a, []);
      assert a + [] == a;
    } else {
      CStringCut(a, b);
    }
  }

  lemma {:induction false} CStringCut(a: string, b: string)
    requires !NulFree(a)
    ensures CString(a + b) == CString(a)
    decreases |a|
  {
    hide NulFree, CString;
    HoldsNul(a);
    NulFreeHead(a);
    CStringHead(a);
    CStringHead(a + b);
    if a[0] != NUL {
      assert (a + b)[1..] == a[1..] + b;
      CStringCut(a[1..], b);
    }
  }

  lemma HoldsNul(a: string)
    requires !NulFree(a)
    ensures a != []
  {
  }

  lemma NulFreeHead(a: string)
    requires a != []
    ensures NulFree(a) <==> a[0] != NUL && NulFree(a[1..])
  {
    assert forall i | 0 < i < |a| :: a[i] == a[1..][i - 1];
  }

  lemma CStringHead(a: string)
    requires a != []
    ensures CString(a) == if a[0] == NUL then [] else [a[0]] + CString(a[1..])
  {
  }

  /** A NUL-terminated string of length `n` starts at `p`. */
  ghost predicate StringAt(b: string, p: int, n: nat) {
    0 <= p && p + n < |b| && b[p + n] == NUL && NulFreeIn(b, p, p + n)
  }

  lemma StringAtLater(b: string, p: int, q: int, end: int)
    requires p <= q <= end && StringAt(b, p, end - p)
    ensures StringAt(b, q, end - q)
  {
  }

  lemma CStringIs(b: string, p: nat, n: nat)
    requires StringAt(b, p, n)
    ensures CString(b[p..]) == b[p..p + n]
  {
    assert b[p..] == b[p..p + n] + b[p + n..];
    CStringStops(b[p..p + n], b[p + n..]);
  }
}
