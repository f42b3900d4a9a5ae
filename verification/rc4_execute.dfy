/** The cipher body of `cryptoRc4Execute` as the block runs it: copy the
    input into the output buffer, build the table in a local 256-entry
    array with the key-scheduling loops, then walk the output buffer
    XOR-ing in one generator octet per position. The table is built afresh
    on every call, so nothing carries over from one execution to the next.
    The generation loop works on the table and the buffer as values; each
    update of a value stands for the in-place write the block makes. */
module Rc4Execute {
  import opened Bytes
  import opened Rc4

  /** The `memmove` of `dataLen` input octets over the start of the output
      buffer. */
  method CopyIn(input: seq<byte>, dataLen: nat, output: seq<byte>) returns (buf: seq<byte>)
    requires dataLen <= |input| && dataLen <= |output|
    ensures buf == input[..dataLen] + output[dataLen..]
  {
    var a := new byte[|output|](t requires 0 <= t < |output| => output[t]);
    var k := 0;
    while k < dataLen
      invariant 0 <= k <= dataLen
      invariant a[..k] == input[..k]
      invariant a[k..] == output[k..]
    {
      a[k] := input[k];
      k := k + 1;
      assert a[..k] == a[..k - 1] + [input[k - 1]];
    }
    buf := a[..];
    assert buf == a[..dataLen] + a[dataLen..];
  }

  /** The key-scheduling loops over a local 256-entry array: the identity
      table, then one swap per entry with the key cursor wrapping at
      `keyLen`. */
  method KeySchedule(key: seq<byte>, keyLen: nat) returns (table: seq<byte>)
    requires 1 <= |key| && keyLen <= |key|
    ensures table == Ksa(ScheduledKey(key, keyLen))
  {
    ghost var k0 := ScheduledKey(key, keyLen);
    var s := new byte[256];
    var i := 0;
    while i < 256
      invariant 0 <= i <= 256
      invariant forall t :: 0 <= t < i ==> s[t] == t
    {
      s[i] := i;
      i := i + 1;
    }
    assert s[..] == Identity();
    var j: nat, kpos: nat := 0, 0;
    i := 0;
    while i < 256
      invariant 0 <= i <= 256
      invariant KsaAfter(k0, i) == KsaState(s[..], j, kpos)
    {
      ghost var before := KsaState(s[..], j, kpos);
      j := LowByte(j + s[i] + key[kpos]);
      kpos := kpos + 1;
      if kpos >= keyLen {
        kpos := 0;
      }
      s[i], s[j] := s[j], s[i];
      assert KsaState(s[..], j, kpos) == KsaStep(k0, before, i);
      i := i + 1;
    }
    table := s[..];
  }

  /** The cipher pass over the output buffer after the copy step: build
      the table from the key octets the schedule reads, then XOR the
      keystream over the first `dataLen` octets in place. */
  method Cipher(key: seq<byte>, keyLen: nat, buf: seq<byte>, dataLen: nat) returns (out: seq<byte>)
    requires 1 <= |key| && keyLen <= |key|
    requires dataLen <= |buf|
    ensures out == Encrypt(ScheduledKey(key, keyLen), buf[..dataLen]) + buf[dataLen..]
  {
    var table := KeySchedule(key, keyLen);
    out := Generate(table, buf, dataLen);
  }

  /** The generation loop: `i` and `j` restart at 0 and the first `dataLen`
      octets of `buf` are XOR-ed in place with the keystream of `s0`; the
      rest of the buffer is not touched. */
  method Generate(s0: seq<byte>, buf: seq<byte>, dataLen: nat) returns (out: seq<byte>)
    requires |s0| == 256 && dataLen <= |buf|
    ensures out == XorSeq(buf[..dataLen], KeystreamFrom(s0, dataLen)) + buf[dataLen..]
  {
    var s: seq<byte>, i: nat, j: nat := s0, 0, 0;
    var a: seq<byte>, k: nat := buf, 0;
    while k < dataLen
      invariant 0 <= k <= dataLen
      invariant PrgaAfter(s0, k) == PrgaState(s, i, j)
      invariant a == XorSeq(buf[..k], KeystreamFrom(s0, k)) + buf[k..]
    {
      var z;
      s, i, j, z := NextOctet(s, i, j);
      GenerateStep(s0, buf, k, a, z);
      a := a[k := Xor(a[k], z)];
      k := k + 1;
    }
    out := a;
  }

  /** One iteration of the generation loop keeps the buffer equal to the
      cipher text so far followed by the untouched input. */
  lemma GenerateStep(s0: seq<byte>, buf: seq<byte>, k: nat, a: seq<byte>, z: byte)
    requires |s0| == 256 && k < |buf|
    requires a == XorSeq(buf[..k], KeystreamFrom(s0, k)) + buf[k..]
    requires z == OutputByte(PrgaAfter(s0, k + 1))
    ensures a[k := Xor(a[k], z)] == XorSeq(buf[..k + 1], KeystreamFrom(s0, k + 1)) + buf[k + 1..]
  {
    var done := XorSeq(buf[..k], KeystreamFrom(s0, k));
    assert KeystreamFrom(s0, k + 1) == KeystreamFrom(s0, k) + [z];
    SplitAt(buf, k);
    XorSeqSnoc(buf[..k], KeystreamFrom(s0, k), buf[k], z);
    UpdateAtSeam(done, buf[k], buf[k + 1..], Xor(buf[k], z));
  }

  /** One pass of the generation loop on the table: advance `i` and `j`,
      swap, and read the keystream octet `S[(S[i] + S[j]) & 0xff]`. */
  method NextOctet(s: seq<byte>, i: nat, j: nat) returns (s': seq<byte>, i': nat, j': nat, z: byte)
    requires |s| == 256 && i < 256 && j < 256
    ensures PrgaState(s', i', j') == PrgaStep(PrgaState(s, i, j))
    ensures z == OutputByte(PrgaState(s', i', j'))
    ensures PrgaState(s', i', j') == TextbookPrgaStep(PrgaState(s, i, j))
    ensures z == s'[(s'[i'] as int + s'[j']) % 256]
  {
    i' := LowByte(i + 1);
    j' := LowByte(j + s[i']);
    s' := s[i' := s[j']][j' := s[i']];
    z := s'[LowByte(s'[i'] as int + s'[j'])];
    OutputByteIsTextbook(PrgaState(s', i', j'));
  }
}
