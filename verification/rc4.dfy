/** Functional specification of the RC4 stream cipher as the crypto block
    computes it: the key-scheduling algorithm (KSA) that derives a 256-entry
    permutation table from the key, and the pseudo-random generation
    algorithm (PRGA) whose output octets are XOR-ed into the data.

    Both loops are described step by step, in the order the block executes
    them, so that the imperative implementation can be related to them one
    iteration at a time. The C code masks its sums with `& 0xff`; every
    masked value is a non-negative sum far below 2^32, so the mask is
    exactly `LowByte`. */
module Rc4 {
  import opened Bytes
  import opened Counters

  /** The identity table `S[i] = i` the key schedule starts from. */
  function Identity(): (s: seq<byte>)
    ensures |s| == 256
    ensures forall k :: 0 <= k < 256 ==> s[k] == k
  {
    seq(256, k requires 0 <= k < 256 => k)
  }

  /** A 256-entry table in which every octet value occurs exactly once,
      i.e. a permutation of 0..255. */
  ghost predicate IsPermutation(s: seq<byte>) {
    |s| == 256 && forall v :: 0 <= v < 256 ==> multiset(s)[v] == 1
  }

  /** The first `n` entries of the identity hold each value below `n` once. */
  lemma {:induction false} IdentityPrefixCount(n: nat, v: int)
    requires n <= 256
    ensures multiset(Identity()[..n])[v] == if 0 <= v < n then 1 else 0
    decreases n
  {
    if n > 0 {
      IdentityPrefixCount(n - 1, v);
      assert Identity()[..n] == Identity()[..n - 1] + [n - 1];
    }
  }

  /** The key schedule starts from a permutation. */
  lemma IdentityIsPermutation()
    ensures IsPermutation(Identity())
  {
    forall v | 0 <= v < 256
      ensures multiset(Identity())[v] == 1
    {
      IdentityPrefixCount(256, v);
      assert Identity()[..256] == Identity();
    }
  }

  /** Exchange two entries of the table (the `SWAP_UINT8` macro): the two
      entries trade places; `SwapFrame` states that the others stay. */
  function Swap(s: seq<byte>, a: nat, b: nat): (r: seq<byte>)
    requires a < |s| && b < |s|
    ensures |r| == |s|
    ensures r[a] == s[b] && r[b] == s[a]
  {
    s[a := s[b]][b := s[a]]
  }

  /** A swap leaves every entry other than the two exchanged ones. */
  lemma SwapFrame(s: seq<byte>, a: nat, b: nat)
    requires a < |s| && b < |s|
    ensures forall k :: 0 <= k < |s| && k != a && k != b ==> Swap(s, a, b)[k] == s[k]
  {
  }

  /** A swap moves values around without adding or losing any: the table
      holds the same multiset of octets afterwards. */
  lemma SwapPreservesMultiset(s: seq<byte>, a: nat, b: nat)
    requires a < |s| && b < |s|
    ensures multiset(Swap(s, a, b)) == multiset(s)
  {
    var t := s[a := s[b]];
    assert multiset(t) == multiset(s) - multiset{s[a]} + multiset{s[b]};
  }

  /** A swap keeps a permutation table a permutation. */
  lemma SwapKeepsPermutation(s: seq<byte>, a: nat, b: nat)
    requires IsPermutation(s) && a < 256 && b < 256
    ensures IsPermutation(Swap(s, a, b))
  {
    SwapPreservesMultiset(s, a, b);
  }

  /** Distinct positions of a permutation table hold distinct values. */
  lemma PermutationIsInjective(s: seq<byte>, a: nat, b: nat)
    requires IsPermutation(s)
    requires a < b < 256
    ensures s[a] != s[b]
  {
    var left, right := s[..b], s[b..];
    assert s == left + right;
    assert left[a] == s[a] && right[0] == s[b];
    assert multiset(left)[s[a]] >= 1 && multiset(right)[s[b]] >= 1;
    assert multiset(s)[s[a]] == multiset(left)[s[a]] + multiset(right)[s[a]];
  }

  /** On a permutation table a swap of two distinct positions is never a
      no-op: both entries take a value they did not hold. Only the swaps with
      `i == j` leave the table as it was. */
  lemma SwapOfDistinctChanges(s: seq<byte>, a: nat, b: nat)
    requires IsPermutation(s) && a < 256 && b < 256 && a != b
    ensures Swap(s, a, b)[a] != s[a] && Swap(s, a, b)[b] != s[b]
    ensures Swap(s, a, b) != s
  {
    if a < b {
      PermutationIsInjective(s, a, b);
    } else {
      PermutationIsInjective(s, b, a);
    }
  }

  // ---------------------------------------------------------------------
  // Key scheduling
  // ---------------------------------------------------------------------

  /** The key schedule's loop variables between iterations: the table `S`,
      the accumulator `j` and the key cursor `kpos`. The loop counter `i` is
      the number of iterations taken. */
  datatype KsaState = KsaState(s: seq<byte>, j: nat, kpos: nat)

  /** Iteration `i` of the key schedule: advance `j` by `S[i]` and the key
      octet under the cursor, move the cursor (back to 0 once it reaches
      the key length), then swap `S[i]` and `S[j]`. In arithmetic terms
      both updates are sums taken modulo 256 and modulo the key length. */
  function KsaStep(key: seq<byte>, st: KsaState, i: nat): (r: KsaState)
    requires 0 < |key| && i < 256
    requires |st.s| == 256 && st.j < 256 && st.kpos < |key|
    ensures |r.s| == 256 && r.j < 256 && r.kpos < |key|
    ensures r.j == (st.j + st.s[i] + key[st.kpos]) % 256
    ensures r.kpos == (st.kpos + 1) % |key|
    ensures r.s == Swap(st.s, i, r.j)
  {
    LowByteIsMod(st.j + st.s[i] + key[st.kpos]);
    var j := LowByte(st.j + st.s[i] + key[st.kpos]);
    var kpos := if st.kpos + 1 >= |key| then 0 else st.kpos + 1;
    KsaState(Swap(st.s, i, j), j, kpos)
  }

  /** The key schedule after its first `n` iterations: `j` stays an index
      into the table and the key cursor stays inside the key, being the
      iteration count wrapped at the key length. */
  function KsaAfter(key: seq<byte>, n: nat): (st: KsaState)
    requires 0 < |key| && n <= 256
    ensures |st.s| == 256 && st.j < 256
    ensures st.kpos == WrapCount(n, |key|)
    decreases n
  {
    if n == 0 then KsaState(Identity(), 0, 0) else KsaStep(key, KsaAfter(key, n - 1), n - 1)
  }

  /** The table the 256 iterations of the key schedule leave behind. */
  function Ksa(key: seq<byte>): (s: seq<byte>)
    requires 0 < |key|
    ensures |s| == 256
  {
    KsaAfter(key, 256).s
  }

  /** The key octets the scheduling loop reads for a stored length of
      `keyLen`. The cursor restarts at 0 whenever `kpos >= keyLen`, so a
      length of 0 behaves like a length of 1: `key[0]` is read on every
      step. */
  function ScheduledKey(key: seq<byte>, keyLen: nat): (k: seq<byte>)
    requires 1 <= |key| && keyLen <= |key|
    ensures 0 < |k| <= |key| && k == key[..|k|]
    ensures keyLen == 0 ==> |k| == 1
    ensures keyLen > 0 ==> |k| == keyLen
  {
    if keyLen == 0 then key[..1] else key[..keyLen]
  }

  /** The table stays a permutation of 0..255 through every swap of the key
      schedule. */
  lemma {:induction false} KsaKeepsPermutation(key: seq<byte>, n: nat)
    requires 0 < |key| && n <= 256
    ensures IsPermutation(KsaAfter(key, n).s)
    decreases n
  {
    if n == 0 {
      IdentityIsPermutation();
    } else {
      var prev := KsaAfter(key, n - 1);
      KsaKeepsPermutation(key, n - 1);
      SwapKeepsPermutation(prev.s, n - 1, KsaAfter(key, n).j);
    }
  }

  /** The key schedule yields a permutation of 0..255. */
  lemma KsaIsPermutation(key: seq<byte>)
    requires 0 < |key|
    ensures IsPermutation(Ksa(key))
  {
    KsaKeepsPermutation(key, 256);
  }

  /** Iteration `i` of the key schedule reads key octet `i mod keyLen`: the
      cursor form used by the block agrees with the textbook description of
      RC4's key schedule. */
  lemma KsaReadsKeyModLength(key: seq<byte>, i: nat)
    requires 0 < |key| && i < 256
    ensures KsaAfter(key, i + 1).j
      == (KsaAfter(key, i).j + KsaAfter(key, i).s[i] + key[i % |key|]) % 256
    ensures KsaAfter(key, i + 1).s == Swap(KsaAfter(key, i).s, i, KsaAfter(key, i + 1).j)
  {
    WrapCountIsMod(i, |key|);
    var prev := KsaAfter(key, i);
    assert KsaAfter(key, i + 1) == KsaStep(key, prev, i);
  }

  // ---------------------------------------------------------------------
  // Pseudo-random generation
  // ---------------------------------------------------------------------

  /** The generator's loop variables: the table and the indices `i`, `j`. */
  datatype PrgaState = PrgaState(s: seq<byte>, i: nat, j: nat)

  /** One generator step: `i := (i + 1) & 0xff`, `j := (j + S[i]) & 0xff`,
      swap `S[i]` and `S[j]`; the masks reduce both sums modulo 256. */
  function PrgaStep(st: PrgaState): (r: PrgaState)
    requires |st.s| == 256 && st.i < 256 && st.j < 256
    ensures |r.s| == 256 && r.i < 256 && r.j < 256
    ensures r.i == (st.i + 1) % 256
    ensures r.j == (st.j + st.s[r.i]) % 256
    ensures r.s == Swap(st.s, r.i, r.j)
  {
    LowByteIsMod(st.i + 1);
    LowByteIsMod(st.j + st.s[LowByte(st.i + 1)]);
    var i := LowByte(st.i + 1);
    var j := LowByte(st.j + st.s[i]);
    PrgaState(Swap(st.s, i, j), i, j)
  }

  /** The keystream octet a step produces, read after its swap:
      `S[(S[i] + S[j]) & 0xff]`, the table entry at the two entries' sum
      modulo 256. */
  function OutputByte(st: PrgaState): (b: byte)
    requires |st.s| == 256 && st.i < 256 && st.j < 256
  {
    st.s[LowByte(st.s[st.i] as int + st.s[st.j])]
  }

  /** The generator after `n` steps from table `s0`, starting with
      `i = j = 0` whatever values the key schedule left in its own `i` and
      `j`. Both indices stay inside the table and `i` is the step count
      wrapped at 256. */
  function PrgaAfter(s0: seq<byte>, n: nat): (st: PrgaState)
    requires |s0| == 256
    ensures |st.s| == 256
    ensures st.i == WrapCount(n, 256) && st.j < 256
    decreases n
  {
    if n == 0 then PrgaState(s0, 0, 0) else PrgaStep(PrgaAfter(s0, n - 1))
  }

  /** The table remains a permutation after every swap of the generator. */
  lemma {:induction false} PrgaKeepsPermutation(s0: seq<byte>, n: nat)
    requires IsPermutation(s0)
    ensures IsPermutation(PrgaAfter(s0, n).s)
    decreases n
  {
    if n > 0 {
      var prev := PrgaAfter(s0, n - 1);
      PrgaKeepsPermutation(s0, n - 1);
      SwapKeepsPermutation(prev.s, PrgaStep(prev).i, PrgaStep(prev).j);
    }
  }

  /** The generator's `i` counts its steps modulo 256. */
  lemma PrgaCounter(s0: seq<byte>, n: nat)
    requires |s0| == 256
    ensures PrgaAfter(s0, n).i == n % 256
  {
    WrapCountIsMod(n, 256);
  }

  /** The first `n` keystream octets produced from table `s0`, drawn one
      generator step at a time. */
  function KeystreamFrom(s0: seq<byte>, n: nat): (ks: seq<byte>)
    requires |s0| == 256
    ensures |ks| == n
    decreases n
  {
    if n == 0 then [] else KeystreamFrom(s0, n - 1) + [OutputByte(PrgaAfter(s0, n))]
  }

  /** The first `n` octets of the RC4 keystream for `key`. */
  function Keystream(key: seq<byte>, n: nat): (ks: seq<byte>)
    requires 0 < |key|
    ensures |ks| == n
  {
    KeystreamFrom(Ksa(key), n)
  }

  /** RC4 applied to `data`: every octet XOR-ed with the keystream octet at
      the same position. */
  function Encrypt(key: seq<byte>, data: seq<byte>): (c: seq<byte>)
    requires 0 < |key|
    ensures |c| == |data|
    ensures forall k :: 0 <= k < |data| ==> c[k] == Xor(data[k], Keystream(key, |data|)[k])
  {
    var ks := Keystream(key, |data|);
    XorSeqAll(data, ks);
    XorSeq(data, ks)
  }

  // ---------------------------------------------------------------------
  // The textbook formulation
  // ---------------------------------------------------------------------

  /** The key schedule as RC4 is usually written: the key octet is
      `key[i mod keyLength]` and every sum is reduced modulo 256. Returns
      the table and `j` after `n` iterations. */
  function TextbookKsa(key: seq<byte>, n: nat): (r: (seq<byte>, nat))
    requires 0 < |key| && n <= 256
    ensures |r.0| == 256 && r.1 < 256
    decreases n
  {
    if n == 0 then (Identity(), 0)
    else
      var prev := TextbookKsa(key, n - 1);
      var j := (prev.1 + prev.0[n - 1] + key[(n - 1) % |key|]) % 256;
      (Swap(prev.0, n - 1, j), j)
  }

  /** The block's key schedule, with its wrapping cursor and `& 0xff`,
      computes the textbook one. */
  lemma {:induction false} KsaMatchesTextbook(key: seq<byte>, n: nat)
    requires 0 < |key| && n <= 256
    ensures KsaAfter(key, n).s == TextbookKsa(key, n).0
    ensures KsaAfter(key, n).j == TextbookKsa(key, n).1
    decreases n
  {
    if n > 0 {
      KsaMatchesTextbook(key, n - 1);
      KsaReadsKeyModLength(key, n - 1);
    }
  }

  /** One generator step as RC4 is usually written, both index updates
      reduced modulo 256: `i = (i + 1) mod 256`, `j = (j + S[i]) mod 256`,
      then a swap. */
  function TextbookPrgaStep(st: PrgaState): (r: PrgaState)
    requires |st.s| == 256 && st.i < 256 && st.j < 256
    ensures |r.s| == 256 && r.i < 256 && r.j < 256
  {
    var i := (st.i + 1) % 256;
    var j := (st.j + st.s[i]) % 256;
    PrgaState(Swap(st.s, i, j), i, j)
  }

  /** The generator after `n` textbook steps from table `s0`. */
  function TextbookPrga(s0: seq<byte>, n: nat): (r: PrgaState)
    requires |s0| == 256
    ensures |r.s| == 256 && r.i < 256 && r.j < 256
    decreases n
  {
    if n == 0 then PrgaState(s0, 0, 0) else TextbookPrgaStep(TextbookPrga(s0, n - 1))
  }

  /** The block's generator step, with `& 0xff` on both indices, is the
      textbook step. */
  lemma PrgaStepIsTextbook(st: PrgaState)
    requires |st.s| == 256 && st.i < 256 && st.j < 256
    ensures PrgaStep(st) == TextbookPrgaStep(st)
  {
  }

  /** The block's generator computes the textbook one. */
  lemma {:induction false} PrgaMatchesTextbook(s0: seq<byte>, n: nat)
    requires |s0| == 256
    ensures PrgaAfter(s0, n) == TextbookPrga(s0, n)
    decreases n
  {
    if n > 0 {
      PrgaMatchesTextbook(s0, n - 1);
      PrgaStepIsTextbook(PrgaAfter(s0, n - 1));
    }
  }

  /** The table the textbook key schedule leaves after all 256 iterations. */
  function TextbookTable(key: seq<byte>): (s: seq<byte>)
    requires 0 < |key|
    ensures |s| == 256
  {
    TextbookKsa(key, 256).0
  }

  /** The textbook keystream octet of a generator state:
      `S[(S[i] + S[j]) mod 256]`. */
  function TextbookOctet(st: PrgaState): byte
    requires |st.s| == 256 && st.i < 256 && st.j < 256
  {
    st.s[(st.s[st.i] as int + st.s[st.j]) % 256]
  }

  /** The first `n` octets the textbook generator emits from table `s0`. */
  function TextbookKeystreamFrom(s0: seq<byte>, n: nat): (ks: seq<byte>)
    requires |s0| == 256
    ensures |ks| == n
    decreases n
  {
    if n == 0 then [] else TextbookKeystreamFrom(s0, n - 1) + [TextbookOctet(TextbookPrga(s0, n))]
  }

  /** The first `n` octets of the textbook RC4 keystream for `key`: the
      textbook key schedule, then one textbook generator step per octet. */
  function TextbookKeystream(key: seq<byte>, n: nat): (ks: seq<byte>)
    requires 0 < |key|
    ensures |ks| == n
  {
    TextbookKeystreamFrom(TextbookTable(key), n)
  }

  /** The keystream the block draws from its own key schedule and
      generator is the textbook RC4 keystream, octet for octet. */
  lemma KeystreamMatchesTextbook(key: seq<byte>, n: nat)
    requires 0 < |key|
    ensures Keystream(key, n) == TextbookKeystream(key, n)
  {
    KsaIsTextbookTable(key);
    KeystreamFromMatchesTextbook(Ksa(key), n);
  }

  /** The block's key schedule leaves the textbook table. */
  lemma KsaIsTextbookTable(key: seq<byte>)
    requires 0 < |key|
    ensures Ksa(key) == TextbookTable(key)
  {
    KsaMatchesTextbook(key, 256);
  }

  /** From any table, the block's generator emits the textbook generator's
      octets. */
  lemma {:induction false} KeystreamFromMatchesTextbook(s0: seq<byte>, n: nat)
    requires |s0| == 256
    ensures KeystreamFrom(s0, n) == TextbookKeystreamFrom(s0, n)
    decreases n
  {
    if n > 0 {
      KeystreamFromMatchesTextbook(s0, n - 1);
      KeystreamFromStepIsTextbook(s0, n);
    }
  }

  /** One more octet of the block's keystream is the textbook generator's
      octet at that step. */
  lemma KeystreamFromStepIsTextbook(s0: seq<byte>, n: nat)
    requires |s0| == 256 && 0 < n
    ensures KeystreamFrom(s0, n) == KeystreamFrom(s0, n - 1) + [TextbookOctet(TextbookPrga(s0, n))]
  {
    GeneratorOctetIsTextbook(s0, n);
  }

  /** The octet the block's generator emits at step `n` is the textbook
      generator's octet at step `n`. */
  lemma GeneratorOctetIsTextbook(s0: seq<byte>, n: nat)
    requires |s0| == 256
    ensures OutputByte(PrgaAfter(s0, n)) == TextbookOctet(TextbookPrga(s0, n))
  {
    PrgaMatchesTextbook(s0, n);
    OutputByteIsTextbook(PrgaAfter(s0, n));
  }

  /** The keystream octet of a generator state is the textbook
      `S[(S[i] + S[j]) mod 256]`. */
  lemma OutputByteIsTextbook(st: PrgaState)
    requires |st.s| == 256 && st.i < 256 && st.j < 256
    ensures OutputByte(st) == st.s[(st.s[st.i] as int + st.s[st.j]) % 256]
  {
    LowByteIsMod(st.s[st.i] as int + st.s[st.j]);
  }

  // ---------------------------------------------------------------------
  // Properties of the keystream
  // ---------------------------------------------------------------------

  /** Keystream octet `k` is the output of generator step `k + 1`, however
      many octets are drawn after it. */
  lemma {:induction false} KeystreamAt(s0: seq<byte>, n: nat, k: nat)
    requires |s0| == 256
    requires k < n
    ensures KeystreamFrom(s0, n)[k] == OutputByte(PrgaAfter(s0, k + 1))
    decreases n
  {
    if k < n - 1 {
      KeystreamAt(s0, n - 1, k);
    }
  }

  /** A longer keystream extends a shorter one: the keystream depends only
      on the table and the position, never on the requested length. */
  lemma {:induction false} KeystreamPrefix(s0: seq<byte>, m: nat, n: nat)
    requires |s0| == 256
    requires m <= n
    ensures KeystreamFrom(s0, n)[..m] == KeystreamFrom(s0, m)
    decreases n
  {
    if m < n {
      KeystreamPrefix(s0, m, n - 1);
      PrefixOfSnoc(KeystreamFrom(s0, n - 1), OutputByte(PrgaAfter(s0, n)), m);
    } else {
      SplitJoin(KeystreamFrom(s0, n), m);
    }
  }

  /** Octet `k` of the cipher output is `data[k]` XOR octet `k` of the
      keystream, and that keystream octet is the same whatever length of
      keystream is drawn: the mask depends only on the key and on `k`. */
  lemma EncryptIsPositional(key: seq<byte>, data: seq<byte>, n: nat, k: nat)
    requires 0 < |key|
    requires k < |data| && k < n
    ensures Encrypt(key, data)[k] == Xor(data[k], Keystream(key, n)[k])
  {
    KeystreamAt(Ksa(key), n, k);
    KeystreamAt(Ksa(key), |data|, k);
    XorSeqAt(data, Keystream(key, |data|), k);
  }

  /** RC4 is its own inverse under the same key: the table is rebuilt from
      the key on every call, so decrypting is encrypting again. */
  lemma EncryptInvolutive(key: seq<byte>, data: seq<byte>)
    requires 0 < |key|
    ensures Encrypt(key, Encrypt(key, data)) == data
  {
    XorSeqInvolutive(data, Keystream(key, |data|));
  }

  /** With an all-zero input the output is exactly the keystream; this is
      how the RFC 6229 test vectors are produced. */
  lemma EncryptZerosIsKeystream(key: seq<byte>, n: nat)
    requires 0 < |key|
    ensures Encrypt(key, Zeros(n)) == Keystream(key, n)
  {
    XorZerosIsIdentity(Keystream(key, n));
  }
}
