/** Remainders: indices that count up and wrap at the ring size, and positions a gap apart. */
module Ring {

  lemma ModUnique(x: int, n: nat, q: int, r: nat)
    requires r < n && x == n * q + r
    ensures x % n == r
  {
    var q' := x / n;
    MulBeyond(n, q - q');
    assert n * (q - q') == n * q - n * q';
  }

  lemma MulBeyond(n: nat, d: int)
    ensures d >= 1 ==> n * d >= n
    ensures d <= -1 ==> n * d + n <= 0
  {
  }

  /** Adding one wraps at `n`, as `if (++index >= n) index = 0` does. */
  lemma Next(x: nat, n: nat)
    requires n > 0
    ensures (x + 1) % n == if x % n + 1 >= n then 0 else x % n + 1
  {
    var q, r := x / n, x % n;
    if r + 1 >= n {
      assert x + 1 == n * (q + 1) + 0;
      ModUnique(x + 1, n, q + 1, 0);
    } else {
      assert x + 1 == n * q + (r + 1);
      ModUnique(x + 1, n, q, r + 1);
    }
  }

  /** Counters less than a ring apart share a slot only when they are equal. */
  lemma SameSlot(a: nat, b: nat, n: nat)
    requires n > 0 && a <= b < a + n
    ensures a % n == b % n <==> a == b
  {
    if a % n == b % n {
      assert b - a == n * (b / n - a / n);
      MulBeyond(n, b / n - a / n);
    }
  }

  /** Stepping one past the newest meets the oldest exactly when the ring is full. */
  lemma Full(a: nat, b: nat, n: nat)
    requires n > 0 && a < b <= a + n
    ensures b % n == a % n <==> b == a + n
  {
    assert a + n == n * (a / n + 1) + a % n;
    ModUnique(a + n, n, a / n + 1, a % n);
    SameSlot(b, a + n, n);
  }
}
