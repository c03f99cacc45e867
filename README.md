# BLAKE2b and BLAKE2s, modelled and proved in Dafny

This project models the core of the TypeScript `blake-es` package. It
covers:

- the two hash classes `Blake2B` (`2b.ts`) and `Blake2S` (`2s.ts`);
- the helpers they share in `_common.ts`: the IV table, the SIGMA
  permutation table, `get32` and `normalizeInput`.

Each class is a `class` whose fields are the source's private fields:

- the block buffer `b`, a byte array;
- the buffer cursor `c` and the byte counter `t`;
- the chained state `h`, the message words `m` and the work vector `v`, all
  `Uint32Array`s;
- the output `length`;
- the `freezed` flag (named `frozen` here);
- the cached `hashUint8Array` and `hashHex` results (named `hashBytes` and
  `hashHex` here).

Each method updates these fields in place, as the source does. BLAKE2b keeps
every 64-bit word as a pair of 32-bit halves, low half first, and so does the
model. The lane view `Common.Lanes` joins each pair back into one 64-bit word.

The proofs run in three layers:

1. **The algorithm.** `Blake2` states BLAKE2 as RFC 7693 defines it, over
   unbounded naturals:
   - G (section 3.1) and the compression function F (section 3.2);
   - the parameter block and the initial state (section 2.5);
   - the little-endian message words (section 2.4) and the digest bytes.

   A `Variant` value carries BLAKE2b's and BLAKE2s's differences: word size,
   rounds, block size, rotations and IV.
2. **The streaming discipline.** `Stream` describes the buffer, cursor and
   counter the source uses, and relates them to a block-by-block reference
   hash. The source keeps a full buffer back until one more byte arrives, so
   the last block is never empty. The invariant `Represents` ties an engine
   state to all the bytes absorbed so far. Every `update` step preserves it,
   and finishing the engine yields exactly the reference hash.
3. **The classes.** Every method of `Blake2B` and `Blake2S` is proved against
   the first two layers:
   - `gMix` computes G;
   - `compress` computes F;
   - `update` performs the stream's absorb;
   - `hash` returns the digest of the key block followed by every byte passed
     to `update`;
   - `hashHex` returns the upper-case hexadecimal encoding of that digest.

   The class invariant `Valid` carries the stream invariant from the
   constructor through every later call.

`Bits` and `Lanes` hold the integer arithmetic:

- XOR, shifts and rotations on naturals;
- JavaScript's `>>>`, `<<`, `~` and `>>` on 32-bit values;
- the lemmas showing that the 32-bit pair operations of `2b.ts` act on the
  joined 64-bit value:
  - `ADD64AA` and `ADD64AC` add modulo 2^64;
  - the swap and the two shift-and-xor forms rotate;
  - `~` on both halves complements the 64-bit value.

Design choices:

- The source's constructor throws a `TypeError`. The model has a separate
  `Create` method that returns a `Result`. The `Validate` functions give the
  error conditions in the source's order.
- `update` on a frozen instance throws an `Error`; in the model, it returns
  `Some(Frozen)` and changes nothing.

## Model

| member | source | states |
|---|---|---|
| Common.Lanes | 2b.ts:29-52 | 64-bit lane k of a pair array is `lo + 2^32 * hi`, taken from elements 2k and 2k+1 |
| Common.IVPairs | _common.ts:20-25 | the 16-word `iv` table, read in low/high pairs, is the BLAKE2b IV of RFC 7693 |
| Common.IVOddWords | _common.ts:20-25 | the odd entries of `iv` are the eight BLAKE2s IV words |
| Common.SigmaEntry | _common.ts:26-37 | entry 16r+j of the flat `sigma` table is entry j of permutation row r, and it is below 16 |
| Common.SigmaSlice | _common.ts:26-37 | each 16-entry slice of `sigma` is one permutation row |
| Common.SigmaRowPermutation | _common.ts:26-37 | every row of `sigma` contains each index 0..15, so it is a permutation |
| Common.Get32 | _common.ts:39-41 | the xor of the four bytes shifted by 0, 8, 16 and 24 equals their little-endian value, also written as a byte sum |
| Common.Get32Sum | _common.ts:39-41 | the xor-of-shifted-bytes form equals the arithmetic sum of the weighted bytes |
| Common.LittleEndian4 | _common.ts:39-41 | the little-endian value of four bytes is the weighted byte sum |
| Common.NormalizeInput | _common.ts:42-44 | a byte array is passed through unchanged; `update`, the key and the BLAKE2b salt and personal strings all go through it |
| Common.SarByte | 2b.ts:258 | for byte index k < 4, the low byte of the arithmetic shift `x >> 8k` is byte k of x |
| Hex.DigitValue | 2b.ts:268-270 | a character has a value exactly when it is an upper-case hex digit, and that value's digit is the character |
| Hex.ByteHex | 2b.ts:268-270 | each byte becomes exactly two upper-case hex digits, zero-padded |
| Hex.Encode | 2b.ts:268-270 | the encoding is twice as long as the bytes and holds only upper-case hex digits |
| Hex.DecodeEncode | 2b.ts:268-270 | decoding the hex encoding gives back the bytes, so the encoding is injective |
| Stream.Zeros | 2b.ts:249-252 | n zero bytes |
| Stream.Start | 2b.ts:63-65 | a fresh engine is well formed, with an empty buffer and a zero counter |
| Stream.AbsorbByte | 2b.ts:283-291 | one `update` byte keeps the engine well formed, leaves at least one byte buffered, and counts exactly one more byte |
| Stream.Absorb | 2b.ts:278-293 | `update` keeps the engine well formed, counts exactly the bytes it was given, and leaves a non-empty buffer after non-empty input |
| Stream.AbsorbAppend | 2b.ts:278-293 | updating with x and then y is the same as updating once with x + y |
| Stream.AbsorbFits | 2s.ts:175-189 | bytes that fit in the buffer are copied after the cursor; nothing is compressed and the counter is unchanged |
| Stream.ReferenceLength | 2b.ts:203-240 | the reference hash keeps the state's length when each compression does |
| Stream.ChainAppend | 2b.ts:284-288 | compressing whole blocks P and then Q chains through the state reached after P |
| Stream.ReferenceAppend | 2b.ts:284-288 | the reference hash of P + R, for whole blocks P, continues from the chained state after P |
| Stream.StartRepresents | 2b.ts:63-66 | a fresh engine represents the empty message |
| Stream.AbsorbByteRepresents | 2b.ts:283-291 | absorbing one byte extends the represented message by that byte |
| Stream.AbsorbRepresents | 2b.ts:278-293 | `update(data)` extends the represented message by `data`: the invariant every `update` preserves |
| Stream.FinishIsReference | 2b.ts:245-260 | finishing an engine that represents M yields the reference hash of M: the last block is padded, and all earlier blocks are full |
| Stream.KeyBlock | 2b.ts:131-134 | the key block is the key padded with zeros to one block |
| Stream.KeyedRepresents | 2b.ts:131-134 | absorbing the key and then setting the cursor to a full block represents the zero-padded key block |
| Blake2.WordsAt | _common.ts:39-41 | word i of a block is the little-endian value of bytes n·i .. n·i+n |
| Blake2.WordToBytesAt | 2s.ts:154-156 | byte k of a word's serialisation is the word shifted right by 8k, masked to 8 bits |
| Blake2.WordToBytesSplit | 2b.ts:257-259 | serialising `lo + hi·2^(8n)` gives lo's n bytes followed by hi's bytes |
| Blake2.StateBytes4At | 2s.ts:154-156 | digest byte i is byte `i & 3` of state word `i >> 2` |
| Blake2.CompressorLength | 2b.ts:203-240 | compression keeps the eight-word state |
| Blake2.FinishCompress | 2b.ts:248-253 | compressing the zero-padded buffer with counter t + c and the last flag is the stream's finish |
| Blake2.DigestOfFinish | 2b.ts:253-259 | the first `length` bytes of the finished state are the digest of the message |
| Lanes.AddPair | 2b.ts:29-37 | adding the halves with a carry from the low half adds the joined words modulo 2^64 |
| Lanes.XorPair | 2b.ts:173-174 | xoring the halves xors the joined words |
| Lanes.NotPair | 2b.ts:216-219 | `~` on both halves complements the joined word |
| Lanes.RotPair32 | 2b.ts:172-176 | swapping the halves rotates the joined word right by 32 |
| Lanes.RotPair | 2b.ts:180-193 | `(x0 >>> n) ^ (x1 << 32-n)` and its mirror rotate the joined word right by n |
| Lanes.RotPair63 | 2b.ts:197-201 | the swapped `>>> 31` / `<< 1` form rotates the joined word right by 63 |
| Lanes.CounterPair | 2b.ts:211-212 | `t` and `t / 2^32`, each cut to 32 bits, join to t modulo 2^64 |
| Lanes.WordsLanes | 2b.ts:222-224 | 32 little-endian 32-bit words, paired, are the 16 little-endian 64-bit words |
| Lanes.LanesBytes | 2b.ts:257-259 | serialising the 32-bit halves gives the same bytes as serialising the joined 64-bit words |
| Lanes.FoldPairs | 2b.ts:237-239 | xoring h with both halves of v, pairwise, is the RFC fold on the joined words |
| Blake2s.IvTrimIsIV | 2s.ts:14-16 | keeping the odd-indexed `iv` words yields the BLAKE2s IV |
| Blake2s.Rotr32 | 2s.ts:20-22 | `(x >>> y) ^ (x << 32-y)` rotates x right by y in 32 bits |
| Blake2s.ParameterWordValue | 2s.ts:60 | `0x01010000 ^ (kk << 8) ^ length` is the first parameter word: digest length, key length, fanout 1, depth 1 |
| Blake2s.EngineWords | 2s.ts:60 | the BLAKE2s parameter block's words are that word followed by seven zeros |
| Blake2s.InitialStateFromIV | 2s.ts:36 | xoring word 0 of the trimmed IV is the RFC initial state for that parameter block |
| Blake2s.InitWorkWords | 2s.ts:105-116 | the 32-bit counter and flag updates give the RFC work vector |
| Blake2s.Validate | 2s.ts:53-59 | succeeds exactly when 1 ≤ length ≤ 32 and any key has at most 32 bytes; a key error is reported only after the length passes |
| Blake2s.SigmaRowAt | 2s.ts:124-133 | the 16 `sigma` entries that round i reads are permutation row i |
| Blake2s.Blake2S.AddInto | 2s.ts:95 | `v[i] = v[i] + v[j] + x` as a 32-bit store is the modular add step |
| Blake2s.Blake2S.XorRotInto | 2s.ts:96 | `v[i] = ROTR32(v[i] ^ v[j], n)` is the xor-rotate step |
| Blake2s.Blake2S.GMix | 2s.ts:94-103 | `gMix` changes v to G of the old v |
| Blake2s.Blake2S.LoadWork | 2s.ts:105-109 | the work vector becomes h followed by the IV |
| Blake2s.Blake2S.InitWorkInto | 2s.ts:105-116 | the work vector becomes the RFC F initialisation for h, t and the last flag |
| Blake2s.Blake2S.LoadMessage | 2s.ts:118-121 | m becomes the block's 16 little-endian words |
| Blake2s.Blake2S.GMixAt | 2s.ts:125-132 | the k-th `gMix` of a round applies G to column or diagonal k |
| Blake2s.Blake2S.RoundInto | 2s.ts:125-132 | the eight `gMix` calls of a round give the RFC round |
| Blake2s.Blake2S.RoundAt | 2s.ts:124-133 | round i reads its message words through `sigma` row i |
| Blake2s.Blake2S.RoundsInto | 2s.ts:124-133 | ten rounds give the RFC's rounds |
| Blake2s.Blake2S.FoldInto | 2s.ts:134-136 | `h[i] ^= v[i] ^ v[i + 8]` is the RFC fold |
| Blake2s.Blake2S.WorkInto | 2s.ts:104-133 | leaves h and b unchanged and computes the RFC work vector after all rounds |
| Blake2s.Blake2S.Compress | 2s.ts:104-137 | `compress` replaces h by F of h, the buffer's words, t and the last flag |
| Blake2s.Blake2S.constructor | 2s.ts:47-69 | a valid instance that is not frozen, with the RFC initial state for (length, key length), and the key block followed by the data as its message |
| Blake2s.Blake2S.Setup | 2s.ts:61-68 | absorbing the key block and the data establishes the class invariant, and the message becomes key block followed by data |
| Blake2s.Blake2S.AbsorbKey | 2s.ts:62-65 | `update(key)` followed by `c = 64` represents the zero-padded key block |
| Blake2s.Blake2S.Freeze | 2s.ts:88-91 | sets the frozen flag and keeps the invariant |
| Blake2s.Blake2S.PadInto | 2s.ts:146-149 | the buffer keeps its first c bytes, the rest become zero, and the cursor reaches 64 |
| Blake2s.Blake2S.FinishInto | 2s.ts:145-150 | h becomes the stream's finish of the old engine |
| Blake2s.Blake2S.OutputBytes | 2s.ts:153-156 | the `length` bytes are the RFC little-endian serialisation of h, truncated |
| Blake2s.Blake2S.Hash | 2s.ts:142-159 | freezes the instance and returns the digest of the whole message; a second call returns the stored bytes |
| Blake2s.Blake2S.StoreDigest | 2s.ts:144-157 | the first `hash` stores the digest of the message |
| Blake2s.Blake2S.FinishDigest | 2s.ts:145-156 | padding, the final compression and the serialisation give the digest of the message |
| Blake2s.Blake2S.HashHex | 2s.ts:164-169 | the upper-case hex encoding of the digest, stored once |
| Blake2s.Blake2S.FlushInto | 2s.ts:180-185 | a full buffer is counted, compressed as a non-last block, and emptied |
| Blake2s.Blake2S.AbsorbByteInto | 2s.ts:179-187 | one byte of `update` is the stream's AbsorbByte |
| Blake2s.Blake2S.StoreByte | 2s.ts:186 | `b[c++] = byte` |
| Blake2s.Blake2S.AbsorbAll | 2s.ts:179-187 | the byte loop of `update` is the stream's Absorb of the data |
| Blake2s.Blake2S.Update | 2s.ts:175-189 | on a frozen instance, the Frozen error and nothing changes; otherwise the data is appended to the message, and the invariant holds |
| Blake2s.Blake2S.Extend | 2s.ts:179-188 | on an instance that is not frozen, appends the data to the message and keeps the invariant |
| Blake2s.Create | 2s.ts:47-69 | the first failing validation is returned as an error; otherwise a valid, fresh instance as the constructor describes |
| Blake2b.Sigma64At | 2b.ts:9-11 | `sigma64` is `sigma` followed by its first two rows, every entry doubled |
| Blake2b.Sigma64Entry | 2b.ts:9-11 | row r of `sigma64` is twice permutation row r mod 10 |
| Blake2b.SigmaRowAt | 2b.ts:227-236 | the 16 `sigma64` entries that round i reads are twice row i mod 10 |
| Blake2b.Add64AA | 2b.ts:29-37 | `ADD64AA` changes only v[a] and v[a+1], and their joined value becomes the 64-bit sum modulo 2^64 |
| Blake2b.Add64AC | 2b.ts:41-52 | `ADD64AC` changes only v[a] and v[a+1], and their joined value gains `b0 + 2^32·b1` modulo 2^64 |
| Blake2b.RotHalf | 2b.ts:183-184 | `(x >>> n) ^ (y << 32-n)` as a 32-bit word is x's high bits plus y's low n bits above them |
| Blake2b.InitialLanes | 2b.ts:127-129 | `h[i] = iv[i] ^ get32(P, 4i)` gives, in lanes, the RFC initial state for the parameter block P |
| Blake2b.InitWorkUnfolded | 2b.ts:205-219 | F's work vector with 64-bit counter words and the complemented word 14 |
| Blake2b.CounterLanes | 2b.ts:211-212 | xoring `t` and `t / 2^32` into words 24 and 25 xors t mod 2^64 into lane 12, and 0 into lane 13 |
| Blake2b.GUnfolded | 2b.ts:163-202 | G with the BLAKE2b rotations 32, 24, 16 and 63 |
| Blake2b.SwapLanes | 2b.ts:172-176 | the xor-and-swap is the xor-rotate-by-32 step on lanes |
| Blake2b.RotLanes | 2b.ts:180-193 | the xor and the paired shifts are the xor-rotate-by-n step on lanes |
| Blake2b.Rot63Lanes | 2b.ts:197-201 | the xor with swapped shifts by 31 and 1 is the xor-rotate-by-63 step on lanes |
| Blake2b.Validate | 2b.ts:103-125 | each error holds exactly when its check is the first to fail, in the order length, key, salt, personal; success exactly when all pass |
| Blake2b.ParametersAt | 2b.ts:70-125 | byte 0 is the digest length, byte 1 the key length, bytes 2 and 3 are 1, bytes 32..47 the salt and 48..63 the personal string (or zeros), every other byte 0 |
| Blake2b.SetAt | 2b.ts:118 | `set(src, offset)` overwrites exactly bytes offset .. offset+|src| |
| Blake2b.NewParameterBlock | 2b.ts:70-125 | the constructed parameter block equals the RFC parameter block for these options |
| Blake2b.InitStateInto | 2b.ts:127-129 | the state loop leaves h, in lanes, equal to the RFC initial state |
| Blake2b.XorWordsInto | 2b.ts:127-129 | each h[k] is `iv[k]` xor word k of the parameter block |
| Blake2b.Blake2B.AddInto | 2b.ts:169 | `ADD64AA(v, a, b)` is the lane add step with no message word |
| Blake2b.Blake2B.AddConstInto | 2b.ts:170 | `ADD64AC(v, a, x0, x1)` adds the joined message word to lane a/2 |
| Blake2b.Blake2B.AddWordInto | 2b.ts:186-187 | the two additions are the lane add step with message word `x0 + 2^32·x1` |
| Blake2b.Blake2B.SwapInto | 2b.ts:172-176 | the lane step xor-rotate by 32 |
| Blake2b.Blake2B.RotInto | 2b.ts:180-193 | the lane step xor-rotate by 24 or 16 |
| Blake2b.Blake2B.Rot63Into | 2b.ts:197-201 | the lane step xor-rotate by 63 |
| Blake2b.Blake2B.GMix | 2b.ts:163-202 | `gMix` changes the lanes of v to G of the old lanes with message words m[ix..ix+1] and m[iy..iy+1] |
| Blake2b.Blake2B.LoadWork | 2b.ts:205-208 | the lanes of v become h's lanes followed by the IV |
| Blake2b.Blake2B.CounterInto | 2b.ts:211-212 | the counter is xored into lane 12, modulo 2^64 |
| Blake2b.Blake2B.LastInto | 2b.ts:216-219 | lane 14 is complemented |
| Blake2b.Blake2B.InitWorkInto | 2b.ts:205-219 | the lanes of v become the RFC F initialisation |
| Blake2b.Blake2B.LoadMessage | 2b.ts:222-224 | the lanes of m become the block's 16 little-endian 64-bit words |
| Blake2b.Blake2B.GMixAt | 2b.ts:228-235 | the k-th `gMix` of a round applies G to column or diagonal k with the words that `sigma64` picks |
| Blake2b.Blake2B.RoundInto | 2b.ts:228-235 | the eight `gMix` calls give the RFC round |
| Blake2b.Blake2B.RoundAt | 2b.ts:227-236 | round i reads its words through row i mod 10 |
| Blake2b.Blake2B.RoundsInto | 2b.ts:227-236 | twelve rounds give the RFC's rounds |
| Blake2b.Blake2B.FoldInto | 2b.ts:237-239 | the lanes of h become the RFC fold |
| Blake2b.Blake2B.WorkInto | 2b.ts:203-236 | leaves h and b unchanged and computes the RFC work vector after all rounds |
| Blake2b.Blake2B.Compress | 2b.ts:203-240 | `compress` replaces h's lanes by F of them, the buffer's words, t and the last flag |
| Blake2b.Blake2B.constructor | 2b.ts:95-138 | a valid instance that is not frozen, with the RFC initial state for the options' parameter block, and the key block followed by the data as its message |
| Blake2b.Blake2B.Setup | 2b.ts:130-137 | absorbing the key block and the data establishes the class invariant |
| Blake2b.Blake2B.AbsorbKey | 2b.ts:131-134 | `update(key)` followed by `c = 128` represents the zero-padded key block |
| Blake2b.Blake2B.Freeze | 2b.ts:157-160 | sets the frozen flag and keeps the invariant |
| Blake2b.Blake2B.PadInto | 2b.ts:249-252 | the buffer keeps its first c bytes, the rest become zero, and the cursor reaches 128 |
| Blake2b.Blake2B.FinishInto | 2b.ts:248-253 | h's lanes become the stream's finish of the old engine |
| Blake2b.Blake2B.OutputBytes | 2b.ts:256-259 | the `length` bytes are the RFC little-endian serialisation of h's lanes, truncated |
| Blake2b.Blake2B.Hash | 2b.ts:245-262 | freezes the instance and returns the digest of the whole message; a second call returns the stored bytes |
| Blake2b.Blake2B.StoreDigest | 2b.ts:247-260 | the first `hash` stores the digest of the message |
| Blake2b.Blake2B.FinishDigest | 2b.ts:248-259 | padding, the final compression and the serialisation give the digest of the message |
| Blake2b.Blake2B.HashHex | 2b.ts:267-272 | the upper-case hex encoding of the digest, stored once |
| Blake2b.Blake2B.FlushInto | 2b.ts:284-289 | a full buffer is counted, compressed as a non-last block, and emptied |
| Blake2b.Blake2B.AbsorbByteInto | 2b.ts:283-291 | one byte of `update` is the stream's AbsorbByte |
| Blake2b.Blake2B.StoreByte | 2b.ts:290 | `b[c++] = byte` |
| Blake2b.Blake2B.AbsorbAll | 2b.ts:282-291 | the byte loop of `update` is the stream's Absorb of the data |
| Blake2b.Blake2B.Update | 2b.ts:278-293 | on a frozen instance, the Frozen error and nothing changes; otherwise the data is appended to the message, and the invariant holds |
| Blake2b.Blake2B.Extend | 2b.ts:282-292 | on an instance that is not frozen, appends the data to the message and keeps the invariant |
| Blake2b.Create | 2b.ts:95-138 | the first failing validation is returned as an error; otherwise a valid, fresh instance as the constructor describes |

## Left out

- `updateFromStream` (2b.ts:299-304, 2s.ts:195-200) is asynchronous
  iteration over a `ReadableStream`. Its effect is `Update` once per chunk,
  and `Stream.AbsorbAppend` shows that this equals one `Update` of all the
  chunks concatenated.
- String inputs: `normalizeInput` encodes a string with `TextEncoder`. This
  is UTF-8 encoding and I/O-level behaviour. The model takes byte sequences
  only. `Common.NormalizeInput` models the byte-array branch, and every
  input passes through it, as in the source.
- `2s.ts` imports `toUint8Array` from `_common.ts`, but `_common.ts` exports
  no such function. It is taken to be `normalizeInput`.
- Salt and personal strings: `2b.ts:115` and `2b.ts:121` check a string
  argument's character count before UTF-8 encoding. For a non-ASCII string
  that count differs from the byte count. The model checks byte lengths
  only.
- The `Symbol.toStringTag` getters and the `length` and `freezed` getters
  are left out. They only read a field, which the model exposes directly.
- Default options: the default `length`, and the `Number.isSafeInteger`
  test on non-integer lengths, are left out. `length` is an `int` argument,
  and a missing value is the caller's choice.
- Blake2b.Add64AC: the branch for `b0 < 0` (2b.ts:43-45) is not modelled.
  Every caller passes an element of a `Uint32Array`, which is never
  negative, so the branch is dead.
- Counter range: every method that compresses requires the byte count to
  stay below 2^53. Beyond that, a JavaScript number loses integer precision,
  and `t / 0x100000000` (2b.ts:212, 2s.ts:112) no longer gives the high
  word. The model does not describe what the source computes then.
- Blake2s.Blake2S.constructor, Blake2b.Blake2B.constructor: a key of length
  0 still makes the source compress one all-zero key block (2s.ts:57-65,
  2b.ts:108-113, 2b.ts:131-134). The key is present, so `kk` is 0. RFC 7693
  would treat such a key as absent. The model follows the code, so its
  digest for an empty key differs from the unkeyed digest.
- BLAKE2s truncation: a BLAKE2s digest of length 16 is not a prefix of the
  digest of length 32. The code mixes the digest length into the initial
  state (2s.ts:60), so the two digests are unrelated. The model follows the code: `h0` depends on `length`.
- Blake2b.Blake2B.constructor: the source keeps the parameter block as a
  field (2b.ts:70). The model builds it in a fresh array that only the
  constructor uses, because nothing else reads it.
- Concurrency and aliasing of the returned `Uint8Array`: `hash` returns a
  copy, so callers cannot reach the stored digest. In the model the result
  is an immutable sequence.
