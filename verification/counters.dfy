/** Wrapping counters. The crypto block keeps two of them: the key cursor
    `kpos`, which is incremented and reset to 0 once it reaches the key
    length, and the generator index `i`, which is incremented and masked
    with 0xff. Both equal the number of increments modulo the wrap point. */
module Counters {

  /** A counter after `n` increments, reset to 0 whenever it reaches `m`. */
  function WrapCount(n: nat, m: nat): (c: nat)
    requires 0 < m
    ensures c < m
    decreases n
  {
    if n == 0 then 0
    else
      var prev := WrapCount(n - 1, m);
      if prev + 1 >= m then 0 else prev + 1
  }

  /** The wrapped counter is the increment count modulo the wrap point. */
  lemma {:induction false} WrapCountIsMod(n: nat, m: nat)
    requires 0 < m
    ensures WrapCount(n, m) == n % m
    decreases n
  {
    if n > 0 {
      WrapCountIsMod(n - 1, m);
      ModSuccessor(n - 1, m);
    }
  }

  /** One more increment moves the remainder modulo `m` up by one, or
      back to 0 when it was the last residue `m - 1`. */
  lemma ModSuccessor(n: nat, m: nat)
    requires 0 < m
    ensures n % m + 1 >= m ==> (n + 1) % m == 0
    ensures n % m + 1 < m ==> (n + 1) % m == n % m + 1
  {
    var q := n / m;
    assert n == q * m + n % m;
    if n % m + 1 >= m {
      assert n + 1 == (q + 1) * m + 0;
      ModUnique(n + 1, m, q + 1, 0);
    } else {
      assert n + 1 == q * m + (n % m + 1);
      ModUnique(n + 1, m, q, n % m + 1);
    }
  }

  /** Euclidean division has one remainder: any decomposition
      `x = q * m + r` with `0 <= r < m` gives `x % m == r`. */
  lemma ModUnique(x: int, m: int, q: int, r: int)
    requires 0 < m && 0 <= r < m && x == q * m + r
    ensures x % m == r
  {
    var q', r' := x / m, x % m;
    assert x == q' * m + r';
    assert (q - q') * m == r' - r;
    if q > q' {
      MulAtLeast(q - q', m);
    } else if q < q' {
      MulAtLeast(q' - q, m);
    }
  }

  /** A positive multiple of `m` is at least `m`. */
  lemma MulAtLeast(d: int, m: int)
    requires 1 <= d && 0 < m
    ensures d * m >= m
  {
    assert d * m == (d - 1) * m + m;
    assert (d - 1) * m >= 0;
  }
}
