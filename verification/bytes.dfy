/** Octets and octet strings, the unit the crypto engine reads and writes.
    An octet is an integer in 0..255 so that it can serve directly as an
    index into the cipher's permutation table; bitwise XOR is defined on it
    bit by bit, least significant bit first. */
module Bytes {

  import Counters

  /** One octet (`uint8_t`). */
  type byte = x: int | 0 <= x < 256

  /** The low octet of a non-negative value, `x & 0xff`: 256 is taken off
      until the value fits in an octet. */
  function LowByte(x: nat): byte
    decreases x
  {
    if x < 256 then x else LowByte(x - 256)
  }

  /** The low octet is the value modulo 256. */
  lemma {:induction false} LowByteIsMod(x: nat)
    ensures LowByte(x) == x % 256
    decreases x
  {
    if x >= 256 {
      LowByteIsMod(x - 256);
    }
  }

  /** 2^w. */
  function Pow2(w: nat): (p: nat)
    ensures p >= 1
  {
    if w == 0 then 1 else 2 * Pow2(w - 1)
  }

  /** AND of the low `w` bits of `a` and `b` (the C operator `&` on
      `w`-bit unsigned values). */
  function AndBits(a: nat, b: nat, w: nat): (r: nat)
    ensures r < Pow2(w)
    decreases w
  {
    if w == 0 then 0
    else (if a % 2 == 1 && b % 2 == 1 then 1 else 0) + 2 * AndBits(a / 2, b / 2, w - 1)
  }

  /** AND with zero clears every bit. */
  lemma {:induction false} AndBitsZero(a: nat, w: nat)
    ensures AndBits(a, 0, w) == 0
    decreases w
  {
    if w > 0 {
      AndBitsZero(a / 2, w - 1);
    }
  }

  /** A mask of `k` one bits, `2^k - 1`. */
  function Ones(k: nat): (m: nat)
    ensures m + 1 == Pow2(k)
  {
    if k == 0 then 0 else 2 * Ones(k - 1) + 1
  }

  /** The value of the low `k` bits of `x`, read bit by bit. */
  function LowBits(x: nat, k: nat): nat
  {
    if k == 0 then 0 else x % 2 + 2 * LowBits(x / 2, k - 1)
  }

  /** AND with a mask of `k` one bits keeps exactly the low `k` bits. */
  lemma {:induction false} AndOnesIsLowBits(x: nat, k: nat, w: nat)
    requires k <= w
    ensures AndBits(x, Ones(k), w) == LowBits(x, k)
    decreases k
  {
    if k == 0 {
      AndBitsZero(x, w);
    } else {
      assert Ones(k) % 2 == 1 && Ones(k) / 2 == Ones(k - 1);
      AndOnesIsLowBits(x / 2, k - 1, w - 1);
    }
  }

  /** The low `k` bits of `x` are `x` modulo 2^k. */
  lemma {:induction false} LowBitsIsMod(x: nat, k: nat)
    ensures LowBits(x, k) == x % Pow2(k)
    decreases k
  {
    if k == 0 {
      assert Pow2(k) == 1;
    } else {
      LowBitsIsMod(x / 2, k - 1);
      HalfMod(x, Pow2(k - 1));
    }
  }

  /** AND with a mask of `k` one bits keeps the value modulo 2^k. */
  lemma AndOnesIsMod(x: nat, k: nat, w: nat)
    requires k <= w
    ensures AndBits(x, Ones(k), w) == x % Pow2(k)
  {
    AndOnesIsLowBits(x, k, w);
    LowBitsIsMod(x, k);
  }

  /** Taking the low bit off and reducing the rest modulo `p` is reducing
      modulo `2 * p`. */
  lemma HalfMod(x: nat, p: nat)
    requires 1 <= p
    ensures x % (2 * p) == x % 2 + 2 * ((x / 2) % p)
  {
    var q, rest := (x / 2) / p, (x / 2) % p;
    assert x / 2 == q * p + rest;
    assert x == 2 * (x / 2) + x % 2;
    assert 2 * (q * p) == q * (2 * p);
    Counters.ModUnique(x, 2 * p, q, x % 2 + 2 * rest);
  }

  /** `LowByte` is the C mask `x & 0xff` on any operand of at least 8 bits
      (the block applies it to `uint32_t` sums). */
  lemma LowByteIsMask(x: nat, w: nat)
    requires 8 <= w
    ensures LowByte(x) == AndBits(x, 0xff, w)
  {
    LowByteIsMod(x);
    AndOnesIsMod(x, 8, w);
    assert Ones(8) == 0xff;
  }

  /** XOR of the low `w` bits of `a` and `b`. */
  function XorBits(a: nat, b: nat, w: nat): (r: nat)
    ensures r < Pow2(w)
    decreases w
  {
    if w == 0 then 0
    else (if a % 2 == b % 2 then 0 else 1) + 2 * XorBits(a / 2, b / 2, w - 1)
  }

  /** Bitwise XOR of two octets (the C operator `^` on `uint8_t`). */
  function Xor(a: byte, b: byte): byte
  {
    XorBits(a, b, 8)
  }

  /** XOR-ing the same `w`-bit value in twice gives back the first one. */
  lemma {:induction false} XorBitsInvolutive(a: nat, b: nat, w: nat)
    requires a < Pow2(w)
    ensures XorBits(XorBits(a, b, w), b, w) == a
    decreases w
  {
    if w > 0 {
      var x := XorBits(a, b, w);
      var rest := XorBits(a / 2, b / 2, w - 1);
      assert x % 2 == (if a % 2 == b % 2 then 0 else 1) && x / 2 == rest;
      XorBitsInvolutive(a / 2, b / 2, w - 1);
    }
  }

  /** XOR with zero leaves a `w`-bit value unchanged. */
  lemma {:induction false} XorBitsZero(b: nat, w: nat)
    requires b < Pow2(w)
    ensures XorBits(0, b, w) == b
    decreases w
  {
    if w > 0 {
      XorBitsZero(b / 2, w - 1);
    }
  }

  /** `(a ^ b) ^ b == a` for octets. */
  lemma XorInvolutive(a: byte, b: byte)
    ensures Xor(Xor(a, b), b) == a
  {
    assert Pow2(8) == 256;
    XorBitsInvolutive(a, b, 8);
  }

  /** `0 ^ b == b` for octets. */
  lemma XorZero(b: byte)
    ensures Xor(0, b) == b
  {
    assert Pow2(8) == 256;
    XorBitsZero(b, 8);
  }

  /** Position-wise XOR of two octet strings of equal length, built one
      octet pair at a time from the front. */
  function XorSeq(a: seq<byte>, b: seq<byte>): (r: seq<byte>)
    requires |a| == |b|
    ensures |r| == |a|
    decreases |a|
  {
    if |a| == 0 then []
    else XorSeq(a[..|a| - 1], b[..|b| - 1]) + [Xor(a[|a| - 1], b[|b| - 1])]
  }

  /** Octet `k` of the XOR is the XOR of the octets at `k`. */
  lemma {:induction false} XorSeqAt(a: seq<byte>, b: seq<byte>, k: nat)
    requires |a| == |b| && k < |a|
    ensures XorSeq(a, b)[k] == Xor(a[k], b[k])
    decreases |a|
  {
    if k < |a| - 1 {
      XorSeqAt(a[..|a| - 1], b[..|b| - 1], k);
    }
  }

  /** Every octet of the XOR is the XOR of the octets at its position. */
  lemma XorSeqAll(a: seq<byte>, b: seq<byte>)
    requires |a| == |b|
    ensures forall k :: 0 <= k < |a| ==> XorSeq(a, b)[k] == Xor(a[k], b[k])
  {
    forall k | 0 <= k < |a|
      ensures XorSeq(a, b)[k] == Xor(a[k], b[k])
    {
      XorSeqAt(a, b, k);
    }
  }

  /** XOR-ing one more octet pair appends its XOR. */
  lemma XorSeqSnoc(a: seq<byte>, b: seq<byte>, x: byte, y: byte)
    requires |a| == |b|
    ensures XorSeq(a + [x], b + [y]) == XorSeq(a, b) + [Xor(x, y)]
  {
    assert (a + [x])[..|a|] == a && (b + [y])[..|b|] == b;
  }

  /** A string of `n` zero octets. */
  function Zeros(n: nat): (z: seq<byte>)
    ensures |z| == n
    ensures forall k :: 0 <= k < n ==> z[k] == 0
  {
    seq(n, k => 0)
  }

  /** XOR-ing the same string in twice is the identity. */
  lemma XorSeqInvolutive(a: seq<byte>, b: seq<byte>)
    requires |a| == |b|
    ensures XorSeq(XorSeq(a, b), b) == a
  {
    var r := XorSeq(XorSeq(a, b), b);
    forall k | 0 <= k < |a|
      ensures r[k] == a[k]
    {
      XorSeqAt(a, b, k);
      XorSeqAt(XorSeq(a, b), b, k);
      XorInvolutive(a[k], b[k]);
    }
  }

  /** XOR with zeros leaves the other operand as it is. */
  lemma XorZerosIsIdentity(b: seq<byte>)
    ensures XorSeq(Zeros(|b|), b) == b
  {
    var r := XorSeq(Zeros(|b|), b);
    forall k | 0 <= k < |b|
      ensures r[k] == b[k]
    {
      XorSeqAt(Zeros(|b|), b, k);
      XorZero(b[k]);
    }
  }

  // ---------------------------------------------------------------------
  // Cutting and joining octet strings
  // ---------------------------------------------------------------------

  /** The two halves of a concatenation can be cut back out. */
  lemma PrefixSuffix(a: seq<byte>, b: seq<byte>)
    ensures (a + b)[..|a|] == a && (a + b)[|a|..] == b
  {
  }

  /** Cutting a string at `n` and gluing the halves gives it back. */
  lemma SplitJoin(s: seq<byte>, n: nat)
    requires n <= |s|
    ensures s[..n] + s[n..] == s
  {
  }

  /** Cutting a string before and after position `k`. */
  lemma SplitAt(s: seq<byte>, k: nat)
    requires k < |s|
    ensures s[..k + 1] == s[..k] + [s[k]]
    ensures s[k..] == [s[k]] + s[k + 1..]
  {
  }

  /** Overwriting the octet right after a prefix replaces just that octet. */
  lemma UpdateAtSeam(p: seq<byte>, x: byte, q: seq<byte>, v: byte)
    ensures (p + ([x] + q))[|p| := v] == p + [v] + q
  {
  }

  /** Appending an octet does not change a prefix of the original. */
  lemma PrefixOfSnoc(s: seq<byte>, x: byte, m: nat)
    requires m <= |s|
    ensures (s + [x])[..m] == s[..m]
  {
  }
}
