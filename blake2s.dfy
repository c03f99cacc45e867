/**
 * The BLAKE2s engine of `2s.ts`: a class holding a 64-byte block buffer, a
 * cursor, a byte counter and an eight-word chained state in typed arrays,
 * updated in place by `update`, `hash` and the private mixing and
 * compression steps. Every method is proved against the functions of
 * Blake2 (instantiated with B2s) and the streaming layer of Stream.
 */
module Blake2s {
  import opened Bits
  import opened Common
  import opened Wrappers
  import opened Blake2
  import Stream
  import Hex
  import Lanes

  const BlockBytes: nat := 64

  /** `ivTrim`: the IV words at odd positions. */
  const IvTrim: seq<Word> := seq(8, i requires 0 <= i < 8 => IV[2 * i + 1])

  /** The odd IV words are exactly the BLAKE2s IV of RFC 7693. */
  lemma IvTrimIsIV()
    ensures IvTrim == Blake2sIV
  {
    IVOddWords();
  }

  /** `ROTR32(x, y)`, `(x >>> y) ^ (x << (32 - y))` for 1 <= y <= 31, is the rotation right by y. */
  function Rotr32(x: Word, y: nat): (r: Word)
    requires 1 <= y <= 31
    ensures r == RotR(x, y, 32)
  {
    W32Pow();
    UshrLe(x, y);
    XorBound(Ushr(x, y), Shl32(x, 32 - y), 32);
    Lanes.HalfRot(x, x, y);
    Xor(Ushr(x, y), Shl32(x, 32 - y))
  }

  /** The word the constructor xors into h[0]: `0x01010000 ^ (kk << 8) ^ nn`. */
  function ParameterWord(nn: Byte, kk: Byte): Word
  {
    Xor32(Xor32(0x0101_0000, Shl32(kk, 8)), nn)
  }

  /** `0x01010000 ^ (kk << 8) ^ nn` is the first parameter-block word: nn, kk, fanout 1, depth 1. */
  lemma ParameterWordValue(nn: Byte, kk: Byte)
    ensures ParameterWord(nn, kk) == nn + 0x100 * kk + 0x0101_0000
  {
    ParameterHigh(kk);
    assert Pow2(8) == 0x100;
    ShlMul(kk + 0x1_0100, 8);
    XorComm(Shl(kk + 0x1_0100, 8), nn);
    XorDisjoint(nn, kk + 0x1_0100, 8);
  }

  /** The upper three bytes of the parameter word: `0x01010000 ^ (kk << 8)` is (kk + 0x10100) shifted left by 8. */
  lemma ParameterHigh(kk: Byte)
    ensures Xor(0x0101_0000, Shl32(kk, 8)) == Shl(kk + 0x1_0100, 8)
  {
    assert Pow2(8) == 0x100;
    ShiftedByte(kk, 8);
    ShlMul(0x1_0100, 8);
    XorSplit(0, 0x1_0100, 0, kk, 8);
    XorZeroLeft(0);
    XorComm(0x1_0100, kk);
    ShlMul(0x101, 8);
    XorDisjoint(kk, 0x101, 8);
    assert Xor(0x1_0100, kk) == kk + 0x1_0100;
  }

  /** The parameter block of an engine: digest length and key length, no salt and no personalization. */
  function EngineParameters(nn: Byte, kk: Byte): (P: seq<Byte>)
    ensures |P| == 32
  {
    ParameterBlock(B2s, nn, kk, Stream.Zeros(8), Stream.Zeros(8))
  }

  /** The words of an engine's parameter block: the parameter word, then seven zero words. */
  lemma EngineWords(nn: Byte, kk: Byte)
    ensures Words(EngineParameters(nn, kk), 4, 8) == [ParameterWord(nn, kk), 0, 0, 0, 0, 0, 0, 0]
  {
    var P := EngineParameters(nn, kk);
    var W := Words(P, 4, 8);
    assert P[..4] == [nn, kk, 1, 1];
    WordsAt(P, 4, 8, 0);
    LittleEndian4(P[0..4]);
    ParameterWordValue(nn, kk);
    forall i | 1 <= i < 8
      ensures W[i] == 0
    {
      WordsAt(P, 4, 8, i);
      LittleEndian4(P[4 * i..4 * i + 4]);
    }
  }

  /** `ivTrim` with the parameter word xored into h[0] is the RFC initial state for that parameter block. */
  lemma InitialStateFromIV(nn: Byte, kk: Byte)
    ensures InitialState(B2s, EngineParameters(nn, kk)) == IvTrim[0 := Xor32(IvTrim[0], ParameterWord(nn, kk))]
  {
    var H := InitialState(B2s, EngineParameters(nn, kk));
    IvTrimIsIV();
    EngineWords(nn, kk);
    forall i | 1 <= i < 8
      ensures H[i] == IvTrim[i]
    {
      XorZeroRight(Blake2sIV[i]);
    }
  }

  /** The start of F for BLAKE2s on words: the counter halves xored into v[12] and v[13], v[14] inverted for the last block. */
  lemma InitWorkWords(V: seq<Word>, H: seq<nat>, t: nat, lo: Word, hi: Word, last: bool)
    requires |H| == 8 && V == H + B2s.iv && lo == t % W32 && hi == (t / W32) % W32
    ensures
      var V1 := V[12 := Xor32(V[12], lo)][13 := Xor32(V[13], hi)];
      InitWork(B2s, H, t, last) == if last then V1[14 := Not32(V1[14])] else V1
  {
    InitWorkAt(B2s, H, t, last);
    CounterWords(V, B2s.modulus, t, lo, hi);
  }

  /** `v[12] ^= lo` and `v[13] ^= hi` on 32-bit words are the counter xor of F, and word 14 stays a word. */
  lemma CounterWords(V: seq<Word>, m: nat, t: nat, lo: Word, hi: Word)
    requires |V| == 16 && m == W32 && lo == t % m && hi == (t / m) % m
    ensures
      var V1 := V[12 := Xor32(V[12], lo)][13 := Xor32(V[13], hi)];
      && V1 == V[12 := Xor(V[12], t % m)][13 := Xor(V[13], (t / m) % m)]
      && V1[14] % m == V1[14]
  {
  }

  /** The digest length or key length check of the constructor, in its order. */
  function Validate(length: int, key: Option<seq<Byte>>): (r: Option<Error>)
    ensures r == Some(InvalidLength) <==> !(1 <= length <= 32)
    ensures r == Some(InvalidKey) <==> 1 <= length <= 32 && key.Some? && |key.value| > 32
    ensures r.None? <==> 1 <= length <= 32 && (key.Some? ==> |key.value| <= 32)
  {
    if !(1 <= length <= 32) then Some(InvalidLength)
    else if key.Some? && |key.value| > 32 then Some(InvalidKey)
    else None
  }

  /** The entries `sigma[i * 16 + 0..15]` that round i of `#compress` reads. */
  method SigmaRowAt(i: nat) returns (s: seq<Index16>)
    requires i < 10
    ensures s == SigmaRow(i)
  {
    SigmaSlice(i);
    s := Sigma[i * 16..i * 16 + 16];
  }

  /** The fresh buffers of the constructor: the zeroed block buffer, `ivTrim`, and the message and work vectors. */
  method NewArrays() returns (b: array<Byte>, h: array<Word>, m: array<Word>, v: array<Word>)
    ensures fresh(b) && fresh(h) && fresh(m) && fresh(v)
    ensures b[..] == Stream.Zeros(BlockBytes) && h[..] == IvTrim && m.Length == 16 && v.Length == 16
    ensures h != m && h != v && m != v
  {
    b := new Byte[BlockBytes](_ => 0);
    h := new Word[8](i requires 0 <= i < 8 => IvTrim[i]);
    m := new Word[16](_ => 0);
    v := new Word[16](_ => 0);
  }

  class Blake2S {
    var frozen: bool
    var hashHex: Option<string>
    var hashBytes: Option<seq<Byte>>
    const b: array<Byte>
    /** Cursor within the buffer. */
    var c: nat
    const h: array<Word>
    /** Digest length in bytes. */
    const length: nat
    const m: array<Word>
    /** Bytes counted so far. */
    var t: nat
    const v: array<Word>
    /** The chained state the engine started from. */
    ghost const h0: seq<nat>
    /** Every byte absorbed since, the key block first. */
    ghost var message: seq<Byte>

    /** The buffer, cursor, counter and chained state as a stream engine. */
    ghost function Engine(): Stream.Engine
      reads this, b, h
    {
      Stream.Engine(b[..], c, t, h[..])
    }

    ghost predicate Valid()
      reads this, b, h, m, v
    {
      && b.Length == BlockBytes && h.Length == 8 && m.Length == 16 && v.Length == 16
      && h != m && h != v && m != v
      && 1 <= length <= 32 && |h0| == 8
      && (hashBytes.None? ==>
            Stream.Represents(BlockBytes, Compressor(B2s), Engine(), h0, message) && |message| < MaxCounter)
      && (hashBytes.Some? ==> frozen && hashBytes.value == Digest(B2s, h0, message, length))
      && (hashHex.Some? ==> hashBytes.Some? && hashHex.value == Hex.Encode(hashBytes.value))
    }

    /** One addition of `#gMix`: `v[i] = v[i] + v[j] + x`, stored into the Uint32Array. */
    method AddInto(i: Index16, j: Index16, x: Word)
      requires v.Length == 16
      modifies v
      ensures v[..] == AddStep(old(v[..]), i, j, x, W32)
    {
      v[i] := (v[i] + v[j] + x) % W32;
    }

    /** One rotation of `#gMix`: `v[i] = ROTR32(v[i] ^ v[j], n)`. */
    method XorRotInto(i: Index16, j: Index16, n: nat)
      requires v.Length == 16 && 1 <= n <= 31
      modifies v
      ensures v[..] == XorRotStep(old(v[..]), i, j, n, 32)
    {
      v[i] := Rotr32(Xor32(v[i], v[j]), n);
    }

    /** `#gMix`: the mixing function G on the work vector, in place. */
    method GMix(a: Index16, b: Index16, c: Index16, d: Index16, x: Word, y: Word)
      requires v.Length == 16
      modifies v
      ensures v[..] == G(B2s, old(v[..]), a, b, c, d, x, y)
    {
      ghost var V: seq<nat> := v[..];
      AddInto(a, b, x);
      assert v[..] == GSteps(B2s, V, a, b, c, d, x, y, 1);
      XorRotInto(d, a, 16);
      assert v[..] == GSteps(B2s, V, a, b, c, d, x, y, 2);
      AddInto(c, d, 0);
      assert v[..] == GSteps(B2s, V, a, b, c, d, x, y, 3);
      XorRotInto(b, c, 12);
      assert v[..] == GSteps(B2s, V, a, b, c, d, x, y, 4);
      AddInto(a, b, y);
      assert v[..] == GSteps(B2s, V, a, b, c, d, x, y, 5);
      XorRotInto(d, a, 8);
      assert v[..] == GSteps(B2s, V, a, b, c, d, x, y, 6);
      AddInto(c, d, 0);
      assert v[..] == GSteps(B2s, V, a, b, c, d, x, y, 7);
      XorRotInto(b, c, 7);
    }

    /** The first loop of `#compress`: the state into v[0..7] and `ivTrim` into v[8..15]. */
    method LoadWork()
      requires h.Length == 8 && v.Length == 16 && h != v
      modifies v
      ensures v[..] == h[..] + B2s.iv
    {
      for i := 0 to 8
        invariant v[..i] == h[..i] && v[8..8 + i] == IvTrim[..i]
      {
        v[i] := h[i];
        v[i + 8] := IvTrim[i];
      }
      IvTrimIsIV();
      assert v[..] == v[..8] + v[8..16];
    }

    /** The start of `#compress`: the work vector, the counter t xored into words 12 and 13, word 14 inverted for the last block. */
    method InitWorkInto(last: bool)
      requires h.Length == 8 && v.Length == 16 && h != v
      requires t < MaxCounter
      modifies v
      ensures v[..] == InitWork(B2s, h[..], t, last)
    {
      LoadWork();
      InitWorkWords(v[..], h[..], t, t % W32, (t / W32) % W32, last);
      v[12] := Xor32(v[12], t % W32);
      v[13] := Xor32(v[13], (t / W32) % W32);
      if last {
        v[14] := Not32(v[14]);
      }
    }

    /** The message words of `#compress`: `get32` of the buffer at 4i. */
    method LoadMessage()
      requires b.Length == BlockBytes && m.Length == 16
      modifies m
      ensures m[..] == MessageWords(B2s, b[..])
    {
      ghost var B := b[..];
      for i := 0 to 16
        invariant m[..i] == Words(B, 4, i)
      {
        var w := Get32(b[..], 4 * i);
        assert Words(B, 4, i + 1) == Words(B, 4, i) + [w];
        m[i] := w;
        assert m[..i + 1] == m[..i] + [w];
      }
    }

    /** One round of `#compress`: the eight `#gMix` calls, at the positions of the table, with the message words the SIGMA row s selects. */
    method RoundInto(s: seq<Index16>)
      requires |s| == 16 && m.Length == 16 && v.Length == 16 && m != v
      modifies v
      ensures v[..] == Mix(B2s, old(v[..]), m[..], s, 8)
    {
      ghost var V, M := v[..], m[..];
      for k := 0 to 8
        invariant m[..] == M && v[..] == Mix(B2s, V, M, s, k)
      {
        ghost var U := v[..];
        GMixAt(s, k);
        MixNext(B2s, V, M, s, k, U, v[..]);
      }
    }

    /** The `#gMix` call at position k of a round. */
    method GMixAt(s: seq<Index16>, k: nat)
      requires |s| == 16 && k < 8 && m.Length == 16 && v.Length == 16 && m != v
      modifies v
      ensures
        var (a, b, c, d) := Positions[k];
        v[..] == G(B2s, old(v[..]), a, b, c, d, m[s[2 * k]], m[s[2 * k + 1]])
    {
      var (a, b, c, d) := Positions[k];
      GMix(a, b, c, d, m[s[2 * k]], m[s[2 * k + 1]]);
    }

    /** The end of `#compress`: `h[i] ^= v[i] ^ v[i + 8]`. */
    method FoldInto()
      requires h.Length == 8 && v.Length == 16 && h != v
      modifies h
      ensures h[..] == Fold(old(h[..]), v[..])
    {
      ghost var H: seq<nat> := h[..];
      for i := 0 to 8
        invariant forall k | 0 <= k < i :: h[k] == Xor(Xor(H[k], v[k]), v[k + 8])
        invariant forall k | i <= k < 8 :: h[k] == H[k]
      {
        XorAssoc(h[i], v[i], v[i + 8]);
        h[i] := Xor32(h[i], Xor32(v[i], v[i + 8]));
      }
    }

    /** Round i of `#compress`: the eight `#gMix` calls with SIGMA row i. */
    method RoundAt(i: nat)
      requires i < 10 && m.Length == 16 && v.Length == 16 && m != v
      modifies v
      ensures v[..] == Round(B2s, old(v[..]), m[..], i)
    {
      var s := SigmaRowAt(i);
      assert i % 10 == i;
      RoundInto(s);
    }

    /** The ten rounds of `#compress`. */
    method RoundsInto()
      requires m.Length == 16 && v.Length == 16 && m != v
      modifies v
      ensures v[..] == Rounds(B2s, old(v[..]), m[..], 10)
    {
      for i := 0 to 10
        invariant v[..] == Rounds(B2s, old(v[..]), m[..], i)
      {
        RoundAt(i);
      }
    }

    /** `#compress` up to the fold: the work vector after the ten rounds. */
    method WorkInto(last: bool)
      requires b.Length == BlockBytes && h.Length == 8 && m.Length == 16 && v.Length == 16
      requires h != m && h != v && m != v
      requires t < MaxCounter
      modifies m, v
      ensures h[..] == old(h[..]) && b[..] == old(b[..])
      ensures v[..] == Rounds(B2s, InitWork(B2s, h[..], t, last), MessageWords(B2s, b[..]), B2s.rounds)
    {
      InitWorkInto(last);
      LoadMessage();
      RoundsInto();
    }

    /** `#compress`: F on the buffered block, the counter t and the flag, into h. */
    method Compress(last: bool)
      requires b.Length == BlockBytes && h.Length == 8 && m.Length == 16 && v.Length == 16
      requires h != m && h != v && m != v
      requires t < MaxCounter
      modifies h, m, v
      ensures h[..] == Blake2.Compress(B2s, old(h[..]), old(b[..]), t, last)
    {
      WorkInto(last);
      FoldInto();
    }

    /** The constructor: the checked length, `ivTrim` with the parameter word in h[0], then the key block and the data absorbed. */
    constructor (length: int, key: Option<seq<Byte>>, data: Option<seq<Byte>>)
      requires Validate(length, key).None?
      requires data.Some? ==> BlockBytes + |data.value| < MaxCounter
      ensures Valid() && !frozen && hashBytes.None? && hashHex.None?
      ensures this.length == length
      ensures h0 == InitialState(B2s, EngineParameters(length, KeyLength(key)))
      ensures message == Stream.InitialMessage(BlockBytes, key, data)
      ensures fresh(b) && fresh(h) && fresh(m) && fresh(v)
    {
      var kk := KeyLength(key);
      this.length := length;
      var b0, h1, m0, v0 := NewArrays();
      h1[0] := Xor32(h1[0], ParameterWord(length, kk));
      ghost var H := h1[..];
      assert H == InitialState(B2s, EngineParameters(length, kk)) by {
        assert H == IvTrim[0 := Xor32(IvTrim[0], ParameterWord(length, kk))];
        InitialStateFromIV(length, kk);
      }
      b, h, m, v := b0, h1, m0, v0;
      c := 0;
      t := 0;
      frozen := false;
      hashHex := None;
      hashBytes := None;
      h0 := H;
      message := [];
      new;
      Setup(key, data);
    }

    /** The constructor after the state is set up: the key block absorbed, then the data. */
    method Setup(key: Option<seq<Byte>>, data: Option<seq<Byte>>)
      requires b.Length == BlockBytes && h.Length == 8 && m.Length == 16 && v.Length == 16
      requires h != m && h != v && m != v && 1 <= length <= 32
      requires key.Some? ==> |key.value| <= 32
      requires data.Some? ==> BlockBytes + |data.value| < MaxCounter
      requires b[..] == Stream.Zeros(BlockBytes) && c == 0 && t == 0 && h[..] == h0 && !frozen
      requires message == [] && hashBytes.None? && hashHex.None?
      modifies this`c, this`t, this`message, b, h, m, v
      ensures Valid() && message == Stream.InitialMessage(BlockBytes, key, data)
    {
      Stream.StartRepresents(BlockBytes, Compressor(B2s), h0);
      if key.Some? {
        AbsorbKey(key.value);
      }
      // Absorbing no data leaves the engine as it is, so a missing data argument absorbs [].
      var d := if data.Some? then data.value else [];
      assert Stream.InitialMessage(BlockBytes, key, data) == Stream.InitialMessage(BlockBytes, key, None) + d;
      Extend(d);
    }

    /** The key part of the constructor: the key absorbed into the fresh engine, then the cursor forced to a full block. */
    method AbsorbKey(key: seq<Byte>)
      requires b.Length == BlockBytes && h.Length == 8 && m.Length == 16 && v.Length == 16
      requires h != m && h != v && m != v && |key| <= BlockBytes
      requires Engine() == Stream.Start(BlockBytes, h0)
      modifies this`c, this`t, this`message, b, h, m, v
      ensures Stream.Represents(BlockBytes, Compressor(B2s), Engine(), h0, message)
      ensures message == Stream.KeyBlock(BlockBytes, key)
    {
      var bytes := NormalizeInput(key);
      AbsorbAll(bytes);
      c := BlockBytes;
      Stream.KeyedRepresents(BlockBytes, Compressor(B2s), h0, key);
      message := Stream.KeyBlock(BlockBytes, key);
    }

    /** `freeze`: from now on `update` is refused. */
    method Freeze()
      requires Valid()
      modifies this`frozen
      ensures Valid() && frozen
    {
      frozen := true;
    }

    /** The zero fill of `hash`: `b[c++] = 0` until the buffer is full. */
    method PadInto()
      requires b.Length == BlockBytes && c <= BlockBytes
      modifies this`c, b
      ensures c == BlockBytes && b[..] == old(b[..c]) + Stream.Zeros(BlockBytes - old(c))
    {
      ghost var B, C := b[..], c;
      while c < BlockBytes
        invariant C <= c <= BlockBytes
        invariant b[..c] == B[..C] + Stream.Zeros(c - C)
        decreases BlockBytes - c
      {
        b[c] := 0;
        c := c + 1;
        assert b[..c] == b[..c - 1] + [0];
        assert Stream.Zeros(c - C) == Stream.Zeros(c - 1 - C) + [0];
      }
      assert b[..] == b[..c];
    }

    /** The final block of `hash`: the cursor added to the counter, the buffer zero-filled and compressed as last. */
    method FinishInto()
      requires b.Length == BlockBytes && h.Length == 8 && m.Length == 16 && v.Length == 16
      requires h != m && h != v && m != v
      requires c <= BlockBytes && t + c < MaxCounter
      modifies this`c, this`t, b, h, m, v
      ensures h[..] == Stream.Finish(BlockBytes, Compressor(B2s), old(Engine()))
    {
      ghost var E := Engine();
      t := t + c;
      PadInto();
      ghost var B := b[..];
      Compress(true);
      FinishCompress(B2s, E, B, t, h[..]);
    }

    /** The output loop of `hash`: byte i is `h[i >> 2] >> (8 * (i & 3)) & 0xFF`, with JavaScript's sign-propagating shift. */
    method OutputBytes() returns (out: seq<Byte>)
      requires h.Length == 8 && length <= 32
      ensures out == Output(B2s, h[..], length)
    {
      ghost var S := StateBytes(h[..], 4);
      var a := new Byte[length];
      for i := 0 to length
        invariant forall j | 0 <= j < i :: a[j] == S[j]
      {
        var q, r := i / 4, i % 4;
        var x := h[q];
        SarByte(x, r);
        StateBytes4At(h[..], i);
        a[i] := Sar32(x, 8 * r) % 0x100;
      }
      out := a[..];
    }

    /**
     * `hash`: freezes the instance; the first call finishes the engine and
     * stores the digest, every call returns the stored digest.
     */
    method Hash() returns (r: seq<Byte>)
      requires Valid()
      modifies this`frozen, this`hashBytes, this`c, this`t, b, h, m, v
      ensures Valid() && frozen && hashBytes == Some(r)
      ensures r == Digest(B2s, h0, message, length)
      ensures old(hashBytes).Some? ==> r == old(hashBytes).value
    {
      frozen := true;
      if hashBytes.None? {
        StoreDigest();
      }
      r := hashBytes.value;
    }

    /** The first call of `hash`: the engine finished, the digest bytes read out of the state and stored. */
    method StoreDigest()
      requires Valid() && frozen && hashBytes.None?
      modifies this`hashBytes, this`c, this`t, b, h, m, v
      ensures Valid() && frozen && hashBytes == Some(Digest(B2s, h0, message, length))
    {
      var out := FinishDigest();
      hashBytes := Some(out);
    }

    /** The digest `hash` computes: the engine finished and the first `length` bytes of the state read out. */
    method FinishDigest() returns (out: seq<Byte>)
      requires b.Length == BlockBytes && h.Length == 8 && m.Length == 16 && v.Length == 16
      requires h != m && h != v && m != v && 1 <= length <= 32 && |h0| == 8
      requires Stream.Represents(BlockBytes, Compressor(B2s), Engine(), h0, message) && |message| < MaxCounter
      modifies this`c, this`t, b, h, m, v
      ensures out == Digest(B2s, h0, message, length)
    {
      ghost var E := Engine();
      FinishInto();
      out := OutputBytes();
      DigestOfFinish(B2s, E, h0, message, h[..], length, out);
    }

    /** `hashHex`: the digest in upper-case hexadecimal, computed once and then stored. */
    method HashHex() returns (r: string)
      requires Valid()
      modifies this`frozen, this`hashBytes, this`hashHex, this`c, this`t, b, h, m, v
      ensures Valid() && frozen && hashHex == Some(r)
      ensures r == Hex.Encode(Digest(B2s, h0, message, length))
    {
      if hashHex.None? {
        var bytes := Hash();
        hashHex := Some(Hex.Encode(bytes));
      }
      r := hashHex.value;
    }

    /** A full buffer in `update`: counted, compressed (not last) and emptied. */
    method FlushInto()
      requires b.Length == BlockBytes && h.Length == 8 && m.Length == 16 && v.Length == 16
      requires h != m && h != v && m != v
      requires c == BlockBytes && t + c < MaxCounter
      modifies this`c, this`t, h, m, v
      ensures c == 0 && t == old(t) + BlockBytes
      ensures h[..] == Blake2.Compress(B2s, old(h[..]), b[..], t, false)
    {
      t := t + c;
      Compress(false);
      c := 0;
    }

    /** One byte of `update`: a full buffer is counted and compressed (not last) before the byte is stored at the cursor. */
    method AbsorbByteInto(x: Byte)
      requires b.Length == BlockBytes && h.Length == 8 && m.Length == 16 && v.Length == 16
      requires h != m && h != v && m != v
      requires c <= BlockBytes && t + c < MaxCounter
      modifies this`c, this`t, b, h, m, v
      ensures Engine() == Stream.AbsorbByte(BlockBytes, Compressor(B2s), old(Engine()), x)
    {
      ghost var E := Engine();
      if c == BlockBytes {
        FlushInto();
        CompressorApply(B2s, E.h, E.b, E.t + BlockBytes, false);
        Stream.AbsorbByteFull(BlockBytes, Compressor(B2s), E, x, h[..]);
      }
      StoreByte(x);
    }

    /** `this.#b[this.#c++] = byte`: the byte stored at the cursor, which moves on by one. */
    method StoreByte(x: Byte)
      requires b.Length == BlockBytes && c < BlockBytes
      modifies this`c, b
      ensures b[..] == old(b[..])[old(c) := x] && c == old(c) + 1
    {
      b[c] := x;
      c := c + 1;
    }

    /** The loop of `update`: every byte of data absorbed in order. */
    method AbsorbAll(data: seq<Byte>)
      requires b.Length == BlockBytes && h.Length == 8 && m.Length == 16 && v.Length == 16
      requires h != m && h != v && m != v
      requires c <= BlockBytes && t + c + |data| < MaxCounter
      modifies this`c, this`t, b, h, m, v
      ensures Engine() == Stream.Absorb(BlockBytes, Compressor(B2s), old(Engine()), data)
    {
      ghost var E := Engine();
      for i := 0 to |data|
        invariant Engine() == Stream.Absorb(BlockBytes, Compressor(B2s), E, data[..i])
      {
        assert data[..i + 1][..i] == data[..i];
        AbsorbByteInto(data[i]);
      }
      assert data[..|data|] == data;
    }

    /** `update`: refused once frozen; otherwise every byte of data absorbed in order. */
    method Update(data: seq<Byte>) returns (r: Option<Error>)
      requires Valid() && (!frozen ==> |message| + |data| < MaxCounter)
      modifies this`c, this`t, this`message, b, h, m, v
      ensures Valid()
      ensures old(frozen) ==> r == Some(Frozen) && message == old(message) && Engine() == old(Engine())
      ensures !old(frozen) ==> r.None? && message == old(message) + data
      ensures !old(frozen) ==> Engine() == Stream.Absorb(BlockBytes, Compressor(B2s), old(Engine()), data)
    {
      if frozen {
        return Some(Frozen);
      }
      Extend(data);
      return None;
    }

    /** `update` once the frozen check has passed. */
    method Extend(data: seq<Byte>)
      requires Valid() && !frozen && |message| + |data| < MaxCounter
      modifies this`c, this`t, this`message, b, h, m, v
      ensures Valid() && message == old(message) + data
      ensures Engine() == Stream.Absorb(BlockBytes, Compressor(B2s), old(Engine()), data)
    {
      ghost var E := Engine();
      var bytes := NormalizeInput(data);
      AbsorbAll(bytes);
      Stream.AbsorbRepresents(BlockBytes, Compressor(B2s), E, h0, message, bytes);
      message := message + bytes;
    }
  }

  /** `new Blake2S(...)`: the constructor's TypeError as a failure, otherwise a fresh valid instance. */
  method Create(length: int, key: Option<seq<Byte>>, data: Option<seq<Byte>>) returns (r: Result<Blake2S, Error>)
    requires data.Some? ==> BlockBytes + |data.value| < MaxCounter
    ensures Validate(length, key).Some? ==> r == Failure(Validate(length, key).value)
    ensures Validate(length, key).None? ==>
      && r.Success? && fresh(r.value) && r.value.Valid() && !r.value.frozen
      && r.value.length == length
      && r.value.h0 == InitialState(B2s, EngineParameters(length, KeyLength(key)))
      && r.value.message == Stream.InitialMessage(BlockBytes, key, data)
  {
    var e := Validate(length, key);
    if e.Some? {
      return Failure(e.value);
    }
    var x := new Blake2S(length, key, data);
    return Success(x);
  }
}
