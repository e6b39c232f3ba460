# Rabbit stream cipher engine, modelled in Dafny

`rabbit.go` implements the keystream generator of the Rabbit stream cipher
(RFC 4503, section 2). The model covers the following:

- **Engine.** One engine value holds:
  - eight 32-bit state words `x`;
  - eight 32-bit counter words `c`;
  - a counter carry bit `b`;
  - a master copy of those three, taken at the end of key setup;
  - a flag recording that key setup has happened.
- **Key setup.** Refuses any key that is not 16 bytes. Otherwise it:
  - resets the engine;
  - loads state and counters from the eight 16-bit subkeys;
  - iterates the next-state function four times;
  - folds the state back into the counters;
  - snapshots the result as the master copy.
- **IV setup.**
  - Refuses to run before key setup (error KeyNotSet, checked first).
  - Refuses any IV that is not 8 bytes (error InvalidLength).
  - Otherwise it restores the master copy, XORs the IV into the counters and iterates four times.
- **Reset.** Zeroes everything and clears the flag.
- **Next-state function.** Updates the counter as a 256-bit add-with-carry, squares and folds lane by lane (the g-function), then mixes the lanes through a rotate-and-add network.
- **Keystream extraction.** Advances once and emits 16 bytes, built from 16-bit halves of the state words.
- **`gfunc`.** The g-function written with 32-bit arithmetic only. It is defined in the source but never called.

Files:

- `words.dfy` (module `Words`): Go's fixed-width unsigned integers as bounded `int`s.
  - Every wrap-around is an explicit `%`.
  - XOR is defined one binary digit at a time.
  - Also: 16-bit halves, bytes, rotations, and the little-endian value of a byte string.
- `gfunction.dfy` (module `GFunction`): the g-function in three forms:
  - the RFC's full-precision definition;
  - the inline 64-bit loop of `nextState`;
  - the 32-bit `gfunc`.

  Both code forms are proved equal to the definition.
- `rabbit.dfy` (module `Rabbit`): the engine and its operations as pure functions from the engine before a call to the engine after it.
  - `setupKey` and `setupIV` return an `Outcome`, which is the engine plus `Ok` or `Failed(error)`.
  - `keyStream` returns a `Block`, which is the engine plus the 16 bytes.
- `lifecycle.dfy` (module `Lifecycle`): arbitrary sequences of calls on one engine and the properties that hold across them.

## Model

| member | source | states |
|---|---|---|
| Words.Add32 | rabbit.go:145 | uint32 addition is the plain sum when it fits and the sum minus 2^32 when it overflows |
| Words.Mul32 | rabbit.go:145-146 | uint32 multiplication is the plain product when it fits, and in every case differs from the product by a multiple of 2^32 |
| Words.Xor | rabbit.go:167 | the XOR of the low n bits is below 2^n |
| Words.XorBit | rabbit.go:167 | bit i of `a ^ b` (i below the width) is 1 exactly when bits i of a and b differ |
| Words.XorHighBits | rabbit.go:167 | no bit at or above the width is set in the XOR |
| Words.XorBits | rabbit.go:167 | every bit of the XOR below the width is 1 exactly when the operand bits differ |
| Words.Xor32 | rabbit.go:167 | uint32 `^`: each of the 32 bits of the result is set exactly when the operands' bits differ |
| Words.Xor16 | rabbit.go:185 | uint16 `^`: each of the 16 bits of the result is set exactly when the operands' bits differ |
| Words.Xor32Commutes | rabbit.go:148 | `h ^ l == l ^ h` for 32-bit words |
| Words.XorTwice | rabbit.go:58-65 | XORing the same n-bit operand in twice leaves the low n bits of the other |
| Words.Xor32Twice | rabbit.go:58-65 | uint32 `x ^ m ^ m == x` |
| Words.Xor16Commutes | rabbit.go:189 | `p ^ q == q ^ p` for 16-bit words |
| Words.Low16 | rabbit.go:185 | `w & 0xFFFF` is the half that differs from w by a multiple of 2^16 |
| Words.High16 | rabbit.go:185 | `w >> 16` is the largest h with h·2^16 not above w |
| Words.LowByte | rabbit.go:186 | `byte(x & 0xFF)` is the byte that differs from x by a multiple of 2^8 |
| Words.HighByte | rabbit.go:187 | `byte(x >> 8)` is the largest b with b·2^8 not above x |
| Words.Join | rabbit.go:88 | the word built by shifting hi left 16 and OR-ing in lo has high half hi and low half lo |
| Words.JoinSplit | rabbit.go:88 | every word is the join of its own high and low halves |
| Words.LittleEndian16 | rabbit.go:85 | the half built by shifting hi left 8 and OR-ing in lo has low byte lo and high byte hi |
| Words.LittleEndian16OfBytes | rabbit.go:186-187 | writing a half as `byte(x & 0xFF)`, `byte(x >> 8)` and reading it back gives the half again |
| Words.RotateLeft8 | rabbit.go:171 | rotating left by 8 moves the low three bytes up one place and the top byte to the bottom |
| Words.RotateLeft16 | rabbit.go:170 | rotating left by 16 swaps the two halves |
| Words.RotateLeft8Twice | rabbit.go:170-171 | two rotations by 8 are one rotation by 16 |
| Words.RotateLeft16Twice | rabbit.go:170 | a rotation by 16 undoes itself |
| Words.DropTwoBytes | rabbit.go:85 | the low 16 bits of a little-endian value are its first two bytes, low first, and the bits above them are the value of the remaining bytes |
| Words.SlicesRecombine | rabbit.go:83-86 | the first n 16-bit slices of a number, put back together lowest first, give the number mod 2^(16n) |
| Words.LittleEndianSlice16 | rabbit.go:85 | bytes 2i and 2i+1 (low first) are bits 16i+15..16i of the little-endian value |
| GFunction.G | rabbit.go:165-167 | the inline g of `nextState` equals the RFC g-function of `(x + c) mod 2^32`: the low and high words of the full square XORed |
| GFunction.GFunc | rabbit.go:142-149 | `gfunc(x)` equals the RFC g-function of x for every 32-bit x |
| GFunction.HighWordOfSquare | rabbit.go:143-145 | in the uint32 expression for `h` none of the three products and neither sum wraps, and the expression equals the high 32 bits of x squared |
| GFunction.SquareHighWord | rabbit.go:145 | with x = b·2^16 + a, the high word of x² is `b² + ((a² >> 17) + a·b) >> 15` |
| GFunction.GFuncAgreesWithInline | rabbit.go:142-149 | `gfunc` and the inline loop give the same g for every state word and counter word |
| Rabbit.ConstantsRepeat | rabbit.go:8 | the table `a` holds the three constants of RFC 4503 section 2.5 (0x4D34D34D, 0xD34D34D3, 0x34D34D34), repeated with period three |
| Rabbit.CounterLane | rabbit.go:154-160 | one counter lane becomes `(c + a + carry) mod 2^32`; the carry out is 1 exactly when that sum reaches 2^32 |
| Rabbit.CounterUpdate | rabbit.go:152-161 | the eight lanes chained from lane 0 to lane 7 add the constants as one 256-bit number: new counter + 2^256·carry-out = old counter + constants + carry-in; the carry out is 0 or 1 |
| Rabbit.CounterUpdateModular | rabbit.go:152-161 | the new counter is (old counter + constants + carry) mod 2^256, and the carry out says whether that sum overflowed |
| Rabbit.GValues | rabbit.go:163-168 | g lane j is the RFC g-function of the 32-bit sum of state word j and the new counter word j |
| Rabbit.Add3 | rabbit.go:170-177 | summing three words in a uint64 and masking to 32 bits equals two wrapping uint32 additions |
| Rabbit.Diffuse | rabbit.go:170-177 | the new state words follow RFC 4503 section 2.6. An even lane adds its two predecessors rotated by 16. An odd lane adds its predecessor rotated by 8 and the lane before that. Indices are mod 8 and sums are mod 2^32 |
| Rabbit.DiffuseRule | rabbit.go:170-177 | each of the eight assignments, as the implementation writes them (`DiffuseLane`), follows that rule |
| Rabbit.DiffuseEvenLane | rabbit.go:170-177 | the same, for the assignment of one even lane 2k |
| Rabbit.DiffuseOddLane | rabbit.go:170-177 | the same, for the assignment of one odd lane 2k+1 |
| Rabbit.NextState | rabbit.go:151-178 | only x, c and b change. The new carry is 0 or 1. The counter advances as a 256-bit add-with-carry of the constants |
| Rabbit.NextStateUsesRfcG | rabbit.go:151-178 | the new state words are the diffusion network applied to the RFC g values of the old state and the new counters |
| Rabbit.Subkeys | rabbit.go:83-86 | subkey i has low byte `key[2i]` and high byte `key[2i+1]` |
| Rabbit.SubkeysAreKeySlices | rabbit.go:83-86 | subkey i is bits 16i+15..16i of the key read as one 128-bit little-endian number |
| Rabbit.InitialX | rabbit.go:88-95 | state word j is subkey j+1 over subkey j for even j, and subkey j+5 over subkey j+4 for odd j (indices mod 8), as in RFC 4503 section 2.3 |
| Rabbit.InitialC | rabbit.go:97-104 | counter word j is subkey j+4 over subkey j+5 for even j, and subkey j over subkey j+1 for odd j (indices mod 8) |
| Rabbit.FoldBack | rabbit.go:111-118 | every counter word is XORed with the state word four lanes further on |
| Rabbit.SetupKey | rabbit.go:75-125 | a key that is not 16 bytes fails with InvalidLength and leaves the engine unchanged. Otherwise the result is Ok, the flag is set, the master copy equals the working state, and the carry is 0 or 1 |
| Rabbit.KeySlices | rabbit.go:83-86 | the RFC 4503 subkeys K^[0..7] that `SubkeysAreKeySlices` matches the `k` array against: eight 16-bit slices of the key that, put back together lowest first, give the key's 128 bits, so no key bit is dropped |
| Rabbit.LoadFollowsRfc | rabbit.go:83-104 | the table of subkey pairs loads the state and counter words RFC 4503 section 2.3 loads from the 128-bit key K: X_j = K^[j+1] over K^[j] and C_j = K^[j+4] over K^[j+5] for even j, X_j = K^[j+5] over K^[j+4] and C_j = K^[j] over K^[j+1] for odd j |
| Rabbit.LoadFromSlices | rabbit.go:88-104 | the same load, for any eight subkeys that are the 16-bit slices of a number |
| Rabbit.LoadLaneX | rabbit.go:88-95 | the same load of the state words, one lane at a time |
| Rabbit.LoadLaneC | rabbit.go:97-104 | the same load of the counter words, one lane at a time |
| Rabbit.SetupKeyFollowsRfc | rabbit.go:75-125 | a valid key setup on any engine gives the engine of RFC 4503 section 2.3: load from K with carry 0, four iterations, counters XORed with the state four lanes on, and the result kept as the master copy |
| Rabbit.IvHalves | rabbit.go:53-56 | IV half i has low byte `iv[2i]` and high byte `iv[2i+1]` |
| Rabbit.IvHalvesAreIvSlices | rabbit.go:53-56 | IV half i is bits 16i+15..16i of the IV read as one 64-bit little-endian number |
| Rabbit.IvMasks | rabbit.go:58-65 | the words XORed into counters 4..7 repeat those XORed into counters 0..3 |
| Rabbit.IvMasksFollowRfc | rabbit.go:58-65 | the counter masks are those of RFC 4503 section 2.4: c0/c4 take IV[31..0], c1/c5 take IV[63..48] over IV[31..16], c2/c6 take IV[63..32], c3/c7 take IV[47..32] over IV[15..0] |
| Rabbit.IvMasksAreRfcMasks | rabbit.go:53-65 | the eight words XORed into the counters equal the masks RFC 4503 section 2.4 builds from the IV read as one 64-bit number |
| Rabbit.XorLanes | rabbit.go:58-65 | `c[j] ^= mask` on every lane loses nothing: XORing the same masks in again gives the counters back |
| Rabbit.XorLanesUndo | rabbit.go:58-65 | every counter lane XORed twice with its mask is unchanged |
| Rabbit.SetupIV | rabbit.go:40-73 | without key setup the result is KeyNotSet (checked first) and the engine is unchanged. An IV that is not 8 bytes gives InvalidLength, also unchanged. Otherwise the result is Ok with carry 0 or 1. The master copy and the flag never change |
| Rabbit.SetupIVFollowsRfc | rabbit.go:40-73 | on a keyed engine a valid IV setup gives the engine of RFC 4503 section 2.4. The state, counters and carry are restored from the master copy. Every counter word is XORed with its mask. The state is iterated four times. The master copy and the flag are kept |
| Rabbit.Reset | rabbit.go:127-140 | the result is the freshly constructed all-zero engine without a key, whatever the engine was |
| Rabbit.LittleEndianBytes | rabbit.go:185-215 | each 16-bit output word is written as two bytes, low first; reading the bytes pairwise gives the words back |
| Rabbit.KeyStream | rabbit.go:180-217 | exactly one `nextState` runs, 16 bytes are returned, and the master copy and flag are unchanged |
| Rabbit.KeyStreamRule | rabbit.go:185-215 | output word 2k is the low half of x[2k] XOR the high half of x[2k+5]; output word 2k+1 is the high half of x[2k] XOR the low half of x[2k+3] (indices mod 8), as in RFC 4503 section 2.7 |
| Rabbit.OutputHalves | rabbit.go:185-213 | the eight output words follow the same RFC 4503 section 2.7 rule |
| Rabbit.OutputRule | rabbit.go:185-213 | each of the eight XORs, as the implementation writes them (`OutputHalf`), follows that rule |
| Rabbit.OutputHalvesRule | rabbit.go:185-213 | the same, for one pair of output words; the odd words are written with their operands swapped, which XOR's symmetry absorbs |
| Lifecycle.Step | rabbit.go:40-217 | one call on the engine (key setup, IV setup or reset from the interface, or `keyStream`): a refused key or IV setup leaves the engine as it was; a successful key setup leaves a keyed engine whose master copy is its working state; reset gives the fresh engine; extraction runs one `nextState`; IV setup and extraction never touch the master copy or the flag |
| Lifecycle.Output | rabbit.go:180-217 | a call sequence emits exactly 16 bytes per extraction |
| Lifecycle.InitialSatisfiesInvariant | rabbit.go:32-34 | a fresh engine satisfies the engine invariant |
| Lifecycle.StepKeepsInvariant | rabbit.go:40-140 | no single call breaks the invariant: carries stay 0 or 1, and an engine without a key has an all-zero master copy |
| Lifecycle.RunKeepsInvariant | rabbit.go:151-161 | no sequence of calls breaks the invariant, so the counter carry is always a bit |
| Lifecycle.SetupKeyForgetsHistory | rabbit.go:80-81 | two engines keyed with the same valid key are identical, whatever they were before |
| Lifecycle.RekeyForgetsHistory | rabbit.go:75-125 | after a key setup, the engine and the keystream of any later calls do not depend on earlier calls |
| Lifecycle.SetupIVReadsOnlyMasters | rabbit.go:49-51 | IV setup on two keyed engines with the same master copy gives the same result |
| Lifecycle.SetupIVLastWins | rabbit.go:40-73 | of two IV setups in a row only the second matters (for a valid second IV) |
| Lifecycle.SetupIVIdempotent | rabbit.go:40-73 | repeating an IV setup changes nothing |
| Lifecycle.SetupIVRestarts | rabbit.go:49-51 | after any mix of extractions and IV setups, setting an IV again gives the same engine as setting it the first time |
| Lifecycle.SetupIVNeedsKey | rabbit.go:41-43 | IV setup on a fresh engine fails with KeyNotSet and changes nothing |
| Lifecycle.ResetForgetsKey | rabbit.go:137 | after a reset IV setup fails with KeyNotSet |

## Left out

- `encrypt` (rabbit.go:36-38) is a stub that returns nothing, so there is no behaviour to model.
- `New` and `newRabbit` (rabbit.go:28-34) and the `Rabbit` interface are plain construction and dispatch. Their result is the constant `Initial`.
- Error messages are modelled as the two error kinds KeyNotSet and InvalidLength. Their texts are not modelled.
- The known-answer vectors of rabbit_test.go:17-39 are not stated. Deciding them needs the solver to evaluate the integer model of XOR and squaring on concrete 32-bit values through four key-setup iterations. That evaluation is far beyond what it can do in reasonable time.
- The byte-reversal helpers of the test file (rabbit_test.go:42-62) support the tests, not the cipher.
- Words are unbounded integers kept in range, not machine bitvectors.
  - Every Go wrap-around (`uint32` multiplication and addition, `& 0xFFFFFFFF`, the `uint64` square) is written out as a reduction.
  - XOR is defined bit by bit and characterised by `Words.XorBit` and `Words.XorHighBits`.
- Go's in-place mutation is modelled as functions returning the new engine. Concurrent use of one engine is not modelled.
