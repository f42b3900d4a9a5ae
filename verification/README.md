# RC4 crypto block (`CatHwMacCrypterRc4`)

A Dafny model of the simulated MAC hardware block that encrypts and
decrypts with the RC4 stream cipher. Firmware drives the block in two
phases:

- `cryptoRc4SetKey` stores a reference to a key buffer and its length, and
  refuses lengths above `maxSupportedRc4KeyLength`.
- `cryptoRc4ResetKey` clears the key reference and its length.
- `cryptoRc4Request` only records the input buffer, the data length and the
  output buffer in a single staging slot, then enqueues one scheduler token.
- `cryptoRc4Execute` runs later. It copies the input over the output
  (`memmove`), builds the 256-entry RC4 table from the key (key-scheduling
  algorithm, KSA), and XORs the generator's keystream (PRGA) into the output
  buffer in place. It then enqueues one completion event.

The project has six modules:

- `Bytes` (bytes.dfy): octets, bitwise AND and XOR defined bit by bit, the
  low octet `LowByte` proved equal to `& 0xff`, and XOR of octet strings.
- `Counters` (counters.dfy): the wrap-around counters the two loops keep
  (`kpos` reset at the key length, `i` masked at 256), proved equal to the
  count modulo the wrap point.
- `Rc4` (rc4.dfy): the functional specification of the KSA and the PRGA,
  step by step in the block's own form. It also gives an independent
  textbook formulation (`key[i mod keyLen]`, sums mod 256) and proves the two
  agree. It proves the permutation invariant, the keystream's positional
  nature, and that RC4 is an involution.
- `Rc4Execute` (rc4_execute.dfy): the copy, key-schedule and generation
  loops of `cryptoRc4Execute`, written as loops with invariants and proved
  equal to the specification.
- `CrypterRc4` (engine.dfy): the block's state (key slot, staging slot,
  scheduler and event logs), its four operations over caller memory, and
  properties of call sequences.

- `Wrappers` (wrappers.dfy): the `Option` type.

Caller buffers are modelled as references into a map from reference to
contents. So the block never copies a buffer, equal references alias, and
the key buffer is read after the copy step, exactly as in the C code.

## Model

| member | source | states |
|---|---|---|
| CrypterRc4.SetKey | rc4.c:74-86 | A length above the maximum yields InvalidParameters (and only such a length does), with the block unchanged. Otherwise it yields Success with exactly the given reference and length stored. Staging slot and logs are never touched, and the length bound is preserved. |
| CrypterRc4.ResetKey | rc4.c:88-92 | The key becomes NULL and the length 0. Everything else is unchanged, and the result satisfies the length bound. |
| CrypterRc4.Request | rc4.c:112-124 | The staging slot holds exactly the new input, length and output. Exactly one scheduler token is appended to the earlier ones. The key slot and the event log are unchanged. |
| CrypterRc4.Execute | rc4.c:129-165 | Only the output buffer may change and it keeps its length. Exactly one completion event is appended. Key slot, staging slot and scheduler log are unchanged. |
| CrypterRc4.CopiedMemory | rc4.c:136 | After the copy step the output buffer starts with the input's first `dataLenOctets` octets, its remaining octets are unchanged and it keeps its length; no other buffer changes. |
| CrypterRc4.ExecKey | rc4.c:136-149 | The key octets the schedule reads are non-empty, and are the stored key (per `ScheduledKey`) whenever the key buffer is not the output buffer. |
| CrypterRc4.ExecuteShape | rc4.c:136-161 | The output buffer after `Execute` is the RC4 encryption of the input's first `dataLenOctets` octets, followed by the output's own remaining octets. |
| CrypterRc4.ExecuteOutput | rc4.c:156-161 | For every `k < dataLenOctets`, output octet `k` equals input octet `k` XOR keystream octet `k`. Octets past `dataLenOctets` keep their earlier values. This also holds when input and output alias. |
| CrypterRc4.ExecuteZeroLength | rc4.c:156-164 | With length 0 no buffer changes, yet one completion event is still emitted. |
| CrypterRc4.ExecuteZeroInputYieldsKeystream | rc4.c:102-104 | An all-zero input produces exactly the RC4 keystream in the output (the RFC 6229 test-vector usage). |
| CrypterRc4.ExecuteInPlaceTwiceRestores | rc4.c:132-161 | In-place processing run twice with a key held elsewhere restores all of memory, because the table is local and rebuilt per call. |
| CrypterRc4.ExecuteSeparateTwiceIsStable | rc4.c:132-161 | With distinct input and output buffers, a second execution of the same staged request writes the same octets again. |
| CrypterRc4.RequestLastWriteWins | rc4.c:117-123 | Two requests in a row equal the second alone, except that the scheduler has received two tokens. |
| CrypterRc4.ExecuteAfterTwoRequests | rc4.c:117-120 | An `Execute` after two requests leaves the same memory as one after the second request alone. |
| CrypterRc4.DecryptRoundTrip | rc4.c:112-161 | Encrypting `p` into `c`, then staging `c` into `d` and executing again under the same key slot, leaves the plain text in `d`. |
| CrypterRc4.RunExecute | rc4.c:129-165 | Running the copy, key-schedule and generation loops gives exactly the `Execute` transition. |
| CrypterRc4.ExecuteFromCopy | rc4.c:136-161 | The key is read from memory after the copy step. The cipher pass then rewrites the copied output buffer in place. |
| CrypterRc4.ResetKeyIdempotent | rc4.c:88-92 | Resetting the key twice is resetting it once. |
| CrypterRc4.ResetKeyUndoesSetKey | rc4.c:74-92 | A reset after any key setting, accepted or refused, leaves the same block as a reset alone. |
| CrypterRc4.SetKeyIdempotent | rc4.c:74-86 | Setting the same key twice gives the same status and block as setting it once. |
| CrypterRc4.StepOp | rc4.c:74-165 | An `Execute` call is defined exactly when the block is ready. The other three calls are always defined and never touch caller memory. |
| CrypterRc4.RunCountsNotifications | rc4.c:123 | Over any defined call sequence, the scheduler log grows by one token per `Request` and the event log by one event per `Execute`. Both logs only grow, and the key length bound is kept. |
| Rc4Execute.CopyIn | rc4.c:136 | The copy loop leaves the input's first `dataLen` octets followed by the output's remaining octets. |
| Rc4Execute.KeySchedule | rc4.c:139-151 | The identity and swap loops, with the cursor wrapping at `keyLen`, build the specification's table for the key octets the schedule reads. |
| Rc4Execute.Generate | rc4.c:153-161 | The generation loop, with `i` and `j` restarting at 0, XORs the table's keystream into the first `dataLen` octets and leaves the rest. |
| Rc4Execute.NextOctet | rc4.c:157-160 | One loop iteration, with its `& 0xff` masks, performs the textbook generator step (`i + 1` and `j + S[i]` mod 256, then the swap) and yields the octet `S[(S[i] + S[j]) mod 256]`. |
| Rc4Execute.Cipher | rc4.c:139-161 | Key schedule followed by generation is RC4 encryption of the buffer's first `dataLen` octets under the scheduled key octets. |
| Rc4.ScheduledKey | rc4.c:145-149 | The octets read are a non-empty prefix of the key buffer: `keyLen` octets, or one octet when `keyLen` is 0. |
| Rc4.Swap | rc4.c:150 | The two exchanged table entries trade values. |
| Rc4.SwapFrame | rc4.c:150 | Every table entry other than the two exchanged ones keeps its value. |
| Rc4.SwapPreservesMultiset | rc4.c:150 | A swap keeps the multiset of table octets. |
| Rc4.SwapKeepsPermutation | rc4.c:150 | A swap of two positions of a permutation of 0..255 leaves a permutation. |
| Rc4.KsaStep | rc4.c:145-150 | One schedule iteration: the new `j` is `j + S[i] + key[kpos]` mod 256, the cursor advances by one and wraps to 0 at the key length, and `S[i]` is swapped with the new `S[j]`. |
| Rc4.KsaAfter | rc4.c:142-150 | During the key schedule `j` stays below 256 and the cursor equals the iteration count wrapped at the key length. |
| Rc4.KsaIsPermutation | rc4.c:139-151 | The key schedule produces a permutation of 0..255. |
| Rc4.KsaKeepsPermutation | rc4.c:139-151 | The table is a permutation after every iteration of the key schedule. |
| Rc4.KsaReadsKeyModLength | rc4.c:145-150 | Iteration `i` sets `j` to `j + S[i] + key[i mod keyLen]` mod 256 and swaps `S[i]` with the new `S[j]`. |
| Rc4.KsaMatchesTextbook | rc4.c:139-151 | The block's key schedule, with its wrapping cursor and masks, computes the textbook RC4 key schedule. |
| Rc4.PrgaStep | rc4.c:157-159 | One generator step: `i` becomes `i + 1` mod 256, `j` becomes `j + S[i]` mod 256 with the new `i`, and `S[i]` is swapped with `S[j]`. |
| Rc4.PrgaAfter | rc4.c:153-159 | The generator starts from `i = j = 0`. Both indices stay below 256, and `i` is the step count wrapped at 256. |
| Rc4.PrgaKeepsPermutation | rc4.c:156-159 | Every generator swap keeps the table a permutation. |
| Rc4.PrgaCounter | rc4.c:157 | After `n` steps the generator's `i` is `n mod 256`. |
| Rc4.PrgaMatchesTextbook | rc4.c:153-159 | The block's generator, with `& 0xff` masks, computes the textbook generator with sums mod 256. |
| Rc4.OutputByteIsTextbook | rc4.c:160 | The octet XOR-ed in is `S[(S[i] + S[j]) mod 256]`. |
| Rc4.KeystreamMatchesTextbook | rc4.c:139-161 | The keystream the block XORs in is the textbook RC4 keystream of the scheduled key octets, octet for octet. |
| Rc4.Encrypt | rc4.c:156-161 | The cipher text has the data's length, and octet `k` is data octet `k` XOR keystream octet `k`. |
| Rc4.KeystreamAt | rc4.c:156-161 | Keystream octet `k` is the output of generator step `k + 1`. |
| Rc4.KeystreamPrefix | rc4.c:156-161 | A longer keystream extends a shorter one, so the keystream does not depend on the data length. |
| Rc4.EncryptIsPositional | rc4.c:156-161 | Cipher octet `k` is data octet `k` XOR a keystream octet that depends only on the key and `k`. |
| Rc4.EncryptInvolutive | rc4.c:132-161 | Encrypting twice under the same key gives back the data. |
| Rc4.EncryptZerosIsKeystream | rc4.c:102-104 | Encrypting zeros yields the keystream. |
| Rc4.PermutationIsInjective | rc4.c:150 | Distinct positions of a permutation table hold distinct octets (a consequence of the permutation invariant). |
| Rc4.SwapOfDistinctChanges | rc4.c:150 | On a permutation table, swapping two distinct positions changes both entries, so only a swap with `i == j` leaves the table as it was. |
| Bytes.LowByteIsMod | rc4.c:145 | The low octet the model takes is the value mod 256. |
| Bytes.LowByteIsMask | rc4.c:145 | The low octet equals the bitwise AND with `0xff`, defined bit by bit, on an operand of any width of at least 8 bits, as for the `uint32_t` sums the block masks. |
| Bytes.AndOnesIsLowBits | rc4.c:157-158 | AND with a mask of `k` one bits keeps exactly the low `k` bits of the value. |
| Bytes.LowBitsIsMod | rc4.c:157-158 | The low `k` bits of a value are the value modulo 2^k. |
| Bytes.AndOnesIsMod | rc4.c:157-158 | AND with a mask of `k` one bits keeps the value modulo 2^k. |
| Bytes.XorInvolutive | rc4.c:160 | XOR-ing the same octet twice restores the original octet. |
| Bytes.XorSeqInvolutive | rc4.c:160 | XOR-ing the same octet string twice restores the original string. |
| Counters.WrapCountIsMod | rc4.c:146-149 | A counter reset to 0 on reaching `m` equals its increment count modulo `m`. |

## Left out

- The constructor (rc4.c:54-57) only writes to the console, which is I/O, and sets no field; the destructor (rc4.c:59-60) is empty. The model therefore fixes no initial state: each property is stated for every block state that meets its precondition.
- The scheduler (`queueRequestToHw`) and the event queue (`queueNewEvent`) are modelled as append-only logs of tokens, because their implementations are not part of this model. The event delay `MAC_IRQ_CRYPTO_RC4_DELAY_US` is not recorded.
- `maxSupportedRc4KeyLength` is defined in a header that is not part of this model; it is taken as 256, one octet per table entry.
- `SWAP_UINT8` is defined in a header that is not part of this model; it is taken as a plain exchange of two table entries.
- Status codes: only the two `catFwMac80211_statusCode_t` values the block returns are modelled.
- Undefined behaviour is excluded by the precondition `Ready` rather than modelled: executing with a NULL key, with no staged request, or with buffers shorter than the lengths they are read at.
- Buffers are modelled as whole references. Two references either name the same buffer or disjoint ones. A partial overlap of input and output inside one allocation, which `memmove` would also handle, is not modelled.
- Raw pointer lifetime: a buffer is assumed to exist for as long as the block holds its reference.
- The `uint32_t` loop counters cannot overflow for lengths below 2^16, so they are modelled as unbounded naturals.
- The generation loop (`Rc4Execute.Generate`) works on the table and buffer as values. Each sequence update stands for the in-place array write the C code makes through `pos`.
- The concrete RFC 6229 test vectors are not evaluated. The model proves that a zero input yields the keystream, not the vectors' values.
- A zero key length: textbook RC4 indexes the key modulo its length, which needs at least one octet. `cryptoRc4SetKey` accepts length 0, and the schedule then reads `key_p[0]` on every iteration. The model follows the code: length 0 acts as the one-octet key `key_p[0]` (`Rc4.ScheduledKey`), and `Ready` only demands that the key buffer holds one octet.
