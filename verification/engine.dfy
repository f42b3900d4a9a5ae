/** The `CatHwMacCrypterRc4` block as firmware sees it: one key slot, one
    staged request, and two fire-and-forget notifications. `SetKey` and
    `ResetKey` manage the key slot; `Request` only stages the buffers and
    enqueues a scheduler token; `Execute` later runs RC4 on whatever the
    staged buffers and the key buffer hold at that moment, then emits one
    completion event.

    The engine keeps references to caller buffers, never copies of them.
    A reference is a `BufferRef`; caller memory maps each reference to the
    current contents of that buffer, so two references that are equal name
    the same buffer (in-place processing) and a buffer written by `Execute`
    is seen by every later read through any equal reference. */
module CrypterRc4 {
  import opened Wrappers
  import opened Bytes
  import opened Rc4
  import Rc4Execute

  /** `maxSupportedRc4KeyLength`: the longest key, in octets, that
      `cryptoRc4SetKey` accepts; one octet per entry of the table. */
  const MaxSupportedRc4KeyLength: nat := 256

  /** The C `uint16_t` of the key and data lengths. */
  type uint16 = x: nat | x < 0x1_0000

  /** A reference to a caller-owned octet buffer. */
  type BufferRef = nat

  /** The contents of every caller buffer, by reference. */
  type Memory = map<BufferRef, seq<byte>>

  /** The two codes of `catFwMac80211_statusCode_t` this block returns. */
  datatype Status = Success | InvalidParameters

  /** The token `Request` hands to the hardware scheduler. */
  datatype HwRequest = ReqMacFwCryptoRc4

  /** The completion event `Execute` hands to the interrupt-event queue. */
  datatype IrqEvent = MacIrqCryptoRc4

  /** The single staging slot written by `Request`: input buffer, number of
      octets, output buffer. */
  datatype Staged = Staged(input: BufferRef, dataLenOctets: uint16, output: BufferRef)

  /** The block's fields, plus the append-only logs of what it handed to
      the scheduler and to the event queue. `key` is `None` for the NULL
      reference `ResetKey` stores; `staged` is `None` before the first
      `Request`. */
  datatype Engine = Engine(
    key: Option<BufferRef>,
    keyLenOctets: uint16,
    staged: Option<Staged>,
    hwRequests: seq<HwRequest>,
    irqEvents: seq<IrqEvent>)

  /** The stored key length never exceeds the supported maximum. */
  predicate Valid(e: Engine)
  {
    e.keyLenOctets <= MaxSupportedRc4KeyLength
  }

  // ---------------------------------------------------------------------
  // Key slot
  // ---------------------------------------------------------------------

  /** `cryptoRc4SetKey`: a key longer than the maximum is refused and the
      block is left exactly as it was; any other length, 0 included, is
      stored together with the reference. Only the key slot changes. */
  function SetKey(e: Engine, key: Option<BufferRef>, keyLenOctets: uint16): (r: (Status, Engine))
    ensures r.0 == InvalidParameters <==> keyLenOctets > MaxSupportedRc4KeyLength
    ensures r.0 == InvalidParameters ==> r.1 == e
    ensures r.0 == Success ==> r.1.key == key && r.1.keyLenOctets == keyLenOctets
    ensures r.1.staged == e.staged
    ensures r.1.hwRequests == e.hwRequests && r.1.irqEvents == e.irqEvents
    ensures Valid(e) ==> Valid(r.1)
  {
    if keyLenOctets > MaxSupportedRc4KeyLength then
      (InvalidParameters, e)
    else
      (Success, e.(key := key, keyLenOctets := keyLenOctets))
  }

  /** `cryptoRc4ResetKey`: the key reference becomes NULL and the length 0;
      nothing else changes. */
  function ResetKey(e: Engine): (r: Engine)
    ensures r.key == None && r.keyLenOctets == 0
    ensures r.staged == e.staged
    ensures r.hwRequests == e.hwRequests && r.irqEvents == e.irqEvents
    ensures Valid(r)
  {
    e.(key := None, keyLenOctets := 0)
  }

  /** Resetting twice is resetting once. */
  lemma ResetKeyIdempotent(e: Engine)
    ensures ResetKey(ResetKey(e)) == ResetKey(e)
  {
  }

  /** A reset forgets whatever key was set before it, accepted or not. */
  lemma ResetKeyUndoesSetKey(e: Engine, key: Option<BufferRef>, keyLenOctets: uint16)
    ensures ResetKey(SetKey(e, key, keyLenOctets).1) == ResetKey(e)
  {
  }

  /** Setting the same key twice is setting it once, and the second call
      reports what the first did. */
  lemma SetKeyIdempotent(e: Engine, key: Option<BufferRef>, keyLenOctets: uint16)
    ensures SetKey(SetKey(e, key, keyLenOctets).1, key, keyLenOctets) == SetKey(e, key, keyLenOctets)
  {
  }

  // ---------------------------------------------------------------------
  // Staging
  // ---------------------------------------------------------------------

  /** `cryptoRc4Request`: overwrite the staging slot with the new buffers
      and length and enqueue exactly one scheduler token. No cipher work is
      done and caller memory is not touched. */
  function Request(e: Engine, input: BufferRef, dataLenOctets: uint16, output: BufferRef): (r: Engine)
    ensures r.staged == Some(Staged(input, dataLenOctets, output))
    ensures |r.hwRequests| == |e.hwRequests| + 1 && r.hwRequests[..|e.hwRequests|] == e.hwRequests
    ensures r.hwRequests[|e.hwRequests|] == ReqMacFwCryptoRc4
    ensures r.key == e.key && r.keyLenOctets == e.keyLenOctets
    ensures r.irqEvents == e.irqEvents
  {
    e.(staged := Some(Staged(input, dataLenOctets, output)),
       hwRequests := e.hwRequests + [ReqMacFwCryptoRc4])
  }

  /** Last write wins: a second `Request` before any `Execute` replaces the
      first one's buffers and length; only the scheduler sees both. */
  lemma RequestLastWriteWins(e: Engine,
                             in1: BufferRef, n1: uint16, out1: BufferRef,
                             in2: BufferRef, n2: uint16, out2: BufferRef)
    ensures Request(Request(e, in1, n1, out1), in2, n2, out2)
         == Request(e, in2, n2, out2).(hwRequests := e.hwRequests + [ReqMacFwCryptoRc4, ReqMacFwCryptoRc4])
  {
  }

  // ---------------------------------------------------------------------
  // Execution
  // ---------------------------------------------------------------------

  /** What `cryptoRc4Execute` needs from its caller: a key reference to a
      buffer holding at least `max(keyLenOctets, 1)` octets (the schedule
      reads `key_p[0]` even for a zero length), a staged request, and
      input and output buffers holding at least `dataLenOctets` octets. */
  predicate Ready(e: Engine, mem: Memory)
  {
    && e.key.Some? && e.key.value in mem
    && 1 <= |mem[e.key.value]| && e.keyLenOctets <= |mem[e.key.value]|
    && e.staged.Some?
    && e.staged.value.input in mem && e.staged.value.output in mem
    && e.staged.value.dataLenOctets <= |mem[e.staged.value.input]|
    && e.staged.value.dataLenOctets <= |mem[e.staged.value.output]|
  }

  /** Memory after the copy step: the first `dataLenOctets` octets of the
      input buffer written over the start of the output buffer, whose
      remaining octets stay as they were. */
  function CopiedMemory(e: Engine, mem: Memory): (m: Memory)
    requires Ready(e, mem)
    ensures m.Keys == mem.Keys
    ensures |m[e.staged.value.output]| == |mem[e.staged.value.output]|
    ensures m[e.staged.value.output][..e.staged.value.dataLenOctets]
         == mem[e.staged.value.input][..e.staged.value.dataLenOctets]
    ensures m[e.staged.value.output][e.staged.value.dataLenOctets..]
         == mem[e.staged.value.output][e.staged.value.dataLenOctets..]
    ensures forall b :: b in mem && b != e.staged.value.output ==> m[b] == mem[b]
  {
    var st := e.staged.value;
    var n := st.dataLenOctets;
    mem[st.output := mem[st.input][..n] + mem[st.output][n..]]
  }

  /** The key octets the schedule reads. The key buffer is read after the
      copy step, so a key buffer that is also the output buffer contributes
      the copied input; otherwise it is the caller's key as stored. */
  function ExecKey(e: Engine, mem: Memory): (k: seq<byte>)
    requires Ready(e, mem)
    ensures 0 < |k|
    ensures e.key.value != e.staged.value.output
            ==> k == ScheduledKey(mem[e.key.value], e.keyLenOctets)
  {
    ScheduledKey(CopiedMemory(e, mem)[e.key.value], e.keyLenOctets)
  }

  /** `cryptoRc4Execute`: copy, schedule the key, XOR the keystream over the
      first `dataLenOctets` octets of the output buffer in place, and emit
      one completion event. Only the output buffer and the event log
      change; the staging slot is left as it was. */
  function Execute(e: Engine, mem: Memory): (r: (Engine, Memory))
    requires Ready(e, mem)
    ensures r.1.Keys == mem.Keys
    ensures forall b :: b in mem && b != e.staged.value.output ==> r.1[b] == mem[b]
    ensures |r.1[e.staged.value.output]| == |mem[e.staged.value.output]|
    ensures |r.0.irqEvents| == |e.irqEvents| + 1 && r.0.irqEvents[..|e.irqEvents|] == e.irqEvents
    ensures r.0.irqEvents[|e.irqEvents|] == MacIrqCryptoRc4
    ensures r.0.key == e.key && r.0.keyLenOctets == e.keyLenOctets
    ensures r.0.staged == e.staged && r.0.hwRequests == e.hwRequests
  {
    var st := e.staged.value;
    var copied := CopiedMemory(e, mem);
    var out := CipherPass(ExecKey(e, mem), copied[st.output], st.dataLenOctets);
    MapUpdateFrame(copied, st.output, out);
    (e.(irqEvents := e.irqEvents + [MacIrqCryptoRc4]), copied[st.output := out])
  }

  /** The in-place pass over the output buffer: its first `n` octets are
      replaced by their cipher text, the rest stay. */
  function CipherPass(key: seq<byte>, buf: seq<byte>, n: nat): (r: seq<byte>)
    requires 0 < |key| && n <= |buf|
    ensures |r| == |buf|
  {
    Encrypt(key, buf[..n]) + buf[n..]
  }

  /** The memory `Execute` leaves behind, read off the caller's memory: the
      output buffer holds the cipher text of the input's first
      `dataLenOctets` octets followed by its own remaining octets. */
  lemma ExecuteShape(e: Engine, mem: Memory)
    requires Ready(e, mem)
    ensures var st := e.staged.value;
            var n := st.dataLenOctets;
            Execute(e, mem).1
              == mem[st.output := Encrypt(ExecKey(e, mem), mem[st.input][..n]) + mem[st.output][n..]]
  {
    var st := e.staged.value;
    var n := st.dataLenOctets;
    var head := mem[st.input][..n];
    var tail := mem[st.output][n..];
    var copied := CopiedMemory(e, mem);
    assert copied == mem[st.output := head + tail];
    PrefixSuffix(head, tail);
    MapOverwrite(mem, st.output, head + tail, Encrypt(ExecKey(e, mem), head) + tail);
  }

  /** Octet `k` of the output buffer after `Execute` is input octet `k`
      XOR keystream octet `k` for every `k < dataLenOctets`; the octets
      after them keep the values the output buffer had. This holds also
      when input and output are the same buffer. */
  lemma ExecuteOutput(e: Engine, mem: Memory)
    requires Ready(e, mem)
    ensures var st := e.staged.value;
            var out := Execute(e, mem).1[st.output];
            var ks := Keystream(ExecKey(e, mem), st.dataLenOctets);
            && (forall k :: 0 <= k < st.dataLenOctets ==> out[k] == Xor(mem[st.input][k], ks[k]))
            && out[st.dataLenOctets..] == mem[st.output][st.dataLenOctets..]
  {
    var st := e.staged.value;
    var n := st.dataLenOctets;
    var key := ExecKey(e, mem);
    var data := mem[st.input][..n];
    var c := Encrypt(key, data);
    ExecuteShape(e, mem);
    var out := Execute(e, mem).1[st.output];
    assert out == c + mem[st.output][n..];
    PrefixSuffix(c, mem[st.output][n..]);
    forall k | 0 <= k < n
      ensures out[k] == Xor(mem[st.input][k], Keystream(key, n)[k])
    {
      EncryptIsPositional(key, data, n, k);
    }
  }

  /** A zero-length request leaves every buffer as it was and still emits
      its completion event. */
  lemma ExecuteZeroLength(e: Engine, mem: Memory)
    requires Ready(e, mem) && e.staged.value.dataLenOctets == 0
    ensures Execute(e, mem).1 == mem
    ensures |Execute(e, mem).0.irqEvents| == |e.irqEvents| + 1
  {
    var st := e.staged.value;
    ExecuteShape(e, mem);
    assert Encrypt(ExecKey(e, mem), mem[st.input][..0]) == [];
    assert mem[st.output][0..] == mem[st.output];
    MapUpdateSame(mem, st.output);
  }

  /** With an all-zero input the output buffer receives the bare RC4
      keystream, the use the RFC 6229 test vectors make of the block. */
  lemma ExecuteZeroInputYieldsKeystream(e: Engine, mem: Memory)
    requires Ready(e, mem)
    requires mem[e.staged.value.input][..e.staged.value.dataLenOctets] == Zeros(e.staged.value.dataLenOctets)
    ensures Execute(e, mem).1[e.staged.value.output][..e.staged.value.dataLenOctets]
         == Keystream(ExecKey(e, mem), e.staged.value.dataLenOctets)
  {
    var st := e.staged.value;
    var n := st.dataLenOctets;
    ExecuteShape(e, mem);
    EncryptZerosIsKeystream(ExecKey(e, mem), n);
    PrefixSuffix(Encrypt(ExecKey(e, mem), Zeros(n)), mem[st.output][n..]);
  }

  /** Processing in place twice with a key held elsewhere restores every
      buffer: the table is rebuilt from the key on each call, so the second
      pass XORs the same keystream back out. */
  lemma ExecuteInPlaceTwiceRestores(e: Engine, mem: Memory)
    requires Ready(e, mem)
    requires e.staged.value.input == e.staged.value.output
    requires e.key.value != e.staged.value.output
    ensures Ready(Execute(e, mem).0, Execute(e, mem).1)
    ensures Execute(Execute(e, mem).0, Execute(e, mem).1).1 == mem
  {
    var st := e.staged.value;
    var o, n := st.output, st.dataLenOctets;
    var key := ExecKey(e, mem);
    var plain, tail := mem[o][..n], mem[o][n..];
    var c := Encrypt(key, plain);
    var r1 := Execute(e, mem);
    ExecuteShape(e, mem);
    assert r1.1 == mem[o := c + tail];
    PrefixSuffix(c, tail);
    assert ExecKey(r1.0, r1.1) == key;
    ExecuteShape(r1.0, r1.1);
    EncryptInvolutive(key, plain);
    MapOverwrite(mem, o, c + tail, plain + tail);
    SplitJoin(mem[o], n);
    MapUpdateSame(mem, o);
  }

  /** With separate input and output buffers and the key not in the output
      buffer, a second `Execute` of the same staged request rewrites the
      output with the same octets: the input is only read. */
  lemma ExecuteSeparateTwiceIsStable(e: Engine, mem: Memory)
    requires Ready(e, mem)
    requires e.staged.value.input != e.staged.value.output
    requires e.key.value != e.staged.value.output
    ensures Ready(Execute(e, mem).0, Execute(e, mem).1)
    ensures Execute(Execute(e, mem).0, Execute(e, mem).1).1 == Execute(e, mem).1
  {
    var st := e.staged.value;
    var i, o, n := st.input, st.output, st.dataLenOctets;
    var key := ExecKey(e, mem);
    var c := Encrypt(key, mem[i][..n]);
    var tail := mem[o][n..];
    var r1 := Execute(e, mem);
    ExecuteShape(e, mem);
    assert r1.1 == mem[o := c + tail];
    PrefixSuffix(c, tail);
    assert ExecKey(r1.0, r1.1) == key;
    ExecuteShape(r1.0, r1.1);
    MapOverwrite(mem, o, c + tail, c + tail);
  }

  /** Only the last `Request` before an `Execute` matters to the buffers:
      an earlier staged request is simply lost. */
  lemma ExecuteAfterTwoRequests(e: Engine, mem: Memory,
                                in1: BufferRef, n1: uint16, out1: BufferRef,
                                in2: BufferRef, n2: uint16, out2: BufferRef)
    requires Ready(Request(e, in2, n2, out2), mem)
    ensures Ready(Request(Request(e, in1, n1, out1), in2, n2, out2), mem)
    ensures Execute(Request(Request(e, in1, n1, out1), in2, n2, out2), mem).1
         == Execute(Request(e, in2, n2, out2), mem).1
  {
    RequestLastWriteWins(e, in1, n1, out1, in2, n2, out2);
  }

  /** Decrypting is encrypting again: stage plain text `p` into `c` and
      execute, then stage `c` into `d` and execute with the same key slot;
      `d` then starts with the plain text. The key buffer must not be one
      the two passes write. */
  lemma DecryptRoundTrip(e: Engine, mem: Memory, p: BufferRef, n: uint16, c: BufferRef, d: BufferRef)
    requires Ready(Request(e, p, n, c), mem)
    requires d in mem && n <= |mem[d]|
    requires e.key.value != c && e.key.value != d
    ensures var r1 := Execute(Request(e, p, n, c), mem);
            && Ready(Request(r1.0, c, n, d), r1.1)
            && Execute(Request(r1.0, c, n, d), r1.1).1[d][..n] == mem[p][..n]
  {
    var e1 := Request(e, p, n, c);
    var r1 := Execute(e1, mem);
    var key := ExecKey(e1, mem);
    var cipher := Encrypt(key, mem[p][..n]);
    ExecuteShape(e1, mem);
    PrefixSuffix(cipher, mem[c][n..]);
    assert r1.1[c][..n] == cipher;
    var e2 := Request(r1.0, c, n, d);
    assert Ready(e2, r1.1);
    assert ExecKey(e2, r1.1) == key;
    ExecuteShape(e2, r1.1);
    PrefixSuffix(Encrypt(key, cipher), r1.1[d][n..]);
    EncryptInvolutive(key, mem[p][..n]);
  }

  /** `cryptoRc4Execute` as the block runs it, through the copy, schedule
      and generation loops, computes exactly the transition above. */
  method RunExecute(e: Engine, mem: Memory) returns (e': Engine, mem': Memory)
    requires Ready(e, mem)
    ensures (e', mem') == Execute(e, mem)
  {
    var st := e.staged.value;
    var buf := Rc4Execute.CopyIn(mem[st.input], st.dataLenOctets, mem[st.output]);
    var copied: Memory := mem[st.output := buf];
    var out := Rc4Execute.Cipher(copied[e.key.value], e.keyLenOctets, buf, st.dataLenOctets);
    mem' := copied[st.output := out];
    e' := e.(irqEvents := e.irqEvents + [MacIrqCryptoRc4]);
    ExecuteFromCopy(e, mem, st.input, st.dataLenOctets, st.output, buf);
  }

  /** `Execute` seen from the copy step: the key is read from memory
      holding the copied buffer, and the cipher pass then rewrites that
      buffer in place. */
  lemma ExecuteFromCopy(e: Engine, mem: Memory, i: BufferRef, n: uint16, o: BufferRef, buf: seq<byte>)
    requires Ready(e, mem) && e.staged == Some(Staged(i, n, o))
    requires buf == mem[i][..n] + mem[o][n..]
    ensures ExecKey(e, mem) == ScheduledKey(mem[o := buf][e.key.value], e.keyLenOctets)
    ensures Execute(e, mem).1 == mem[o := buf][o := Encrypt(ExecKey(e, mem), buf[..n]) + buf[n..]]
  {
    assert CopiedMemory(e, mem) == mem[o := buf];
  }

  // ---------------------------------------------------------------------
  // Firmware call sequences
  // ---------------------------------------------------------------------

  /** One call firmware makes on the block. */
  datatype Op =
    | SetKeyOp(key: Option<BufferRef>, keyLenOctets: uint16)
    | ResetKeyOp
    | RequestOp(input: BufferRef, dataLenOctets: uint16, output: BufferRef)
    | ExecuteOp

  /** The effect of one call; `None` when an `Execute` is made without a
      key, a staged request or large enough buffers, which the block does
      not define. The status `SetKey` returns is dropped here. */
  function StepOp(e: Engine, mem: Memory, op: Op): (r: Option<(Engine, Memory)>)
    ensures op.ExecuteOp? ==> (r.Some? <==> Ready(e, mem))
    ensures !op.ExecuteOp? ==> r.Some? && r.value.1 == mem
  {
    match op
    case SetKeyOp(key, len) => Some((SetKey(e, key, len).1, mem))
    case ResetKeyOp => Some((ResetKey(e), mem))
    case RequestOp(input, len, output) => Some((Request(e, input, len, output), mem))
    case ExecuteOp => if Ready(e, mem) then Some(Execute(e, mem)) else None
  }

  /** The effect of a sequence of calls, or `None` if one of them is
      outside what the block defines. */
  function Run(e: Engine, mem: Memory, ops: seq<Op>): Option<(Engine, Memory)>
    decreases |ops|
  {
    if |ops| == 0 then Some((e, mem))
    else
      match StepOp(e, mem, ops[0])
      case None => None
      case Some(next) => Run(next.0, next.1, ops[1..])
  }

  /** How many calls of `ops` are `Request`s. */
  function Requests(ops: seq<Op>): nat
    decreases |ops|
  {
    if |ops| == 0 then 0 else (if ops[0].RequestOp? then 1 else 0) + Requests(ops[1..])
  }

  /** How many calls of `ops` are `Execute`s. */
  function Executes(ops: seq<Op>): nat
    decreases |ops|
  {
    if |ops| == 0 then 0 else (if ops[0].ExecuteOp? then 1 else 0) + Executes(ops[1..])
  }

  /** Over any defined sequence of calls, the scheduler receives exactly
      one token per `Request` and the event queue exactly one completion
      event per `Execute`, both logs only grow, and the stored key length
      stays within the maximum. */
  lemma {:induction false} RunCountsNotifications(e: Engine, mem: Memory, ops: seq<Op>)
    requires Run(e, mem, ops).Some?
    ensures var f := Run(e, mem, ops).value.0;
            && |f.hwRequests| == |e.hwRequests| + Requests(ops)
            && |f.irqEvents| == |e.irqEvents| + Executes(ops)
            && f.hwRequests[..|e.hwRequests|] == e.hwRequests
            && f.irqEvents[..|e.irqEvents|] == e.irqEvents
            && (Valid(e) ==> Valid(f))
    decreases |ops|
  {
    if |ops| > 0 {
      var next := StepOp(e, mem, ops[0]).value;
      RunCountsNotifications(next.0, next.1, ops[1..]);
      var f := Run(e, mem, ops).value.0;
      assert f == Run(next.0, next.1, ops[1..]).value.0;
      PrefixOfPrefix(e.hwRequests, next.0.hwRequests, f.hwRequests);
      PrefixOfPrefix(e.irqEvents, next.0.irqEvents, f.irqEvents);
    }
  }

  /** A prefix of a prefix is a prefix. */
  lemma PrefixOfPrefix<T>(a: seq<T>, b: seq<T>, c: seq<T>)
    requires |a| <= |b| <= |c|
    requires b[..|a|] == a && c[..|b|] == b
    ensures c[..|a|] == a
  {
    assert c[..|a|] == c[..|b|][..|a|];
  }

  // ---------------------------------------------------------------------
  // Map facts
  // ---------------------------------------------------------------------

  /** Writing one buffer keeps the set of buffers and every other buffer. */
  lemma MapUpdateFrame(m: Memory, o: BufferRef, x: seq<byte>)
    requires o in m
    ensures m[o := x].Keys == m.Keys
    ensures forall b :: b in m && b != o ==> m[o := x][b] == m[b]
  {
  }

  /** A second update of the same buffer replaces the first. */
  lemma MapOverwrite(m: Memory, b: BufferRef, x: seq<byte>, y: seq<byte>)
    ensures m[b := x][b := y] == m[b := y]
  {
  }

  /** Writing a buffer's own contents back changes nothing. */
  lemma MapUpdateSame(m: Memory, b: BufferRef)
    requires b in m
    ensures m[b := m[b]] == m
  {
  }
}
