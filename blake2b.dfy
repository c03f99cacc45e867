/**
 * The BLAKE2b engine of `2b.ts`: a class holding a 128-byte block buffer, a
 * cursor, a byte counter and the chained state, with every 64-bit word kept
 * as a (low, high) pair of 32-bit words in typed arrays. Through Lanes every
 * pair operation is proved to be the 64-bit operation of RFC 7693, so every
 * method is proved against the functions of Blake2 (instantiated with B2b)
 * and the streaming layer of Stream, on the joined lanes.
 */
module Blake2b {
  import opened Bits
  import opened Common
  import opened Wrappers
  import opened Blake2
  import Stream
  import Hex
  import L = Lanes

  const BlockBytes: nat := 128

  /** `sigma64`: SIGMA followed by its first two rows again, every entry doubled to index the low word of a message pair. */
  const Sigma64: seq<nat> := seq(192, i requires 0 <= i < 192 => 2 * ((Sigma + Sigma[..32])[i] as int))

  /** Entry i of `sigma64` is twice entry i of SIGMA, or twice entry i - 160 for the repeated rows. */
  lemma Sigma64At(i: nat)
    requires i < 192
    ensures |Sigma64| == 192 && Sigma64[i] == 2 * (if i < 160 then Sigma[i] as int else Sigma[i - 160] as int)
  {
  }

  /** Entry 16r + j of `sigma64`, r < 12, is twice entry j of SIGMA row r mod 10. */
  lemma Sigma64Entry(r: nat, j: nat)
    requires r < 12 && j < 16
    ensures |Sigma64| == 192 && Sigma64[16 * r + j] == 2 * (SigmaRow(r % 10)[j] as int)
  {
    var i := 16 * r + j;
    Sigma64At(i);
    if r < 10 {
      DivModUnique(r, 0, r, 10);
      SigmaEntry(r, j);
    } else {
      DivModUnique(r, 1, r - 10, 10);
      assert i - 160 == 16 * (r - 10) + j;
      SigmaEntry(r - 10, j);
    }
  }

  /** The entries `sigma64[i * 16 + 0..15]` that round i of `#compress` reads. */
  method SigmaRowAt(i: nat) returns (s: seq<nat>)
    requires i < 12
    ensures |s| == 16 && forall j | 0 <= j < 16 :: s[j] == 2 * (SigmaRow(i % 10)[j] as int)
  {
    s := Sigma64[16 * i..16 * i + 16];
    forall j | 0 <= j < 16
      ensures s[j] == 2 * (SigmaRow(i % 10)[j] as int)
    {
      Sigma64Entry(i, j);
    }
  }

  /**
   * `ADD64AA(v, a, b)`: the low words added, the carry out of the low sum
   * added into the high sum, both stored mod 2^32. The pair at a becomes
   * the 64-bit sum of the pairs at a and b; nothing else changes.
   */
  method Add64AA(v: array<Word>, a: nat, b: nat)
    requires a + 1 < v.Length && b + 1 < v.Length
    modifies v
    ensures v[..] == old(v[..])[a := v[a]][a + 1 := v[a + 1]]
    ensures Join(v[a], v[a + 1]) == (Join(old(v[a]), old(v[a + 1])) + Join(old(v[b]), old(v[b + 1]))) % W64
  {
    L.AddPair(v[a], v[a + 1], v[b], v[b + 1]);
    var o0: int := v[a] as int + v[b];
    var o1: int := v[a + 1] as int + v[b + 1];
    if o0 >= W32 {
      o1 := o1 + 1;
    }
    v[a] := o0 % W32;
    v[a + 1] := o1 % W32;
  }

  /**
   * `ADD64AC(v, a, b0, b1)`: the 64-bit constant with low word b0 and high
   * word b1 added to the pair at a, with the same carry; nothing else changes.
   */
  method Add64AC(v: array<Word>, a: nat, b0: Word, b1: Word)
    requires a + 1 < v.Length
    modifies v
    ensures v[..] == old(v[..])[a := v[a]][a + 1 := v[a + 1]]
    ensures Join(v[a], v[a + 1]) == (Join(old(v[a]), old(v[a + 1])) + Join(b0, b1)) % W64
  {
    L.AddPair(v[a], v[a + 1], b0, b1);
    var o0: int := v[a] as int + b0;
    var o1: int := v[a + 1] as int + b1;
    if o0 >= W32 {
      o1 := o1 + 1;
    }
    v[a] := o0 % W32;
    v[a + 1] := o1 % W32;
  }

  /** `(x >>> n) ^ (y << (32 - n))` for 0 < n < 32: the high bits of x below the low n bits of y. */
  function RotHalf(x: Word, y: Word, n: nat): (r: Word)
    requires 0 < n < 32
    ensures r == Ushr(x, n) + Shl(Low(y, n), 32 - n)
  {
    W32Pow();
    UshrLe(x, n);
    XorBound(Ushr(x, n), Shl32(y, 32 - n), 32);
    L.HalfRot(x, y, n);
    Xor(Ushr(x, n), Shl32(y, 32 - n))
  }

  /** The words of the parameter block, xored into the IV word by word, are the RFC initial state on lanes. */
  lemma {:induction false} InitialLanes(P: seq<Byte>, hw: seq<Word>)
    requires |P| == 64 && |hw| == 16
    requires forall i {:trigger hw[i]} | 0 <= i < 16 :: hw[i] == Xor(IV[i], Words(P, 4, 16)[i])
    ensures Lanes(hw) == InitialState(B2b, P)
  {
    var W := Words(P, 4, 16);
    L.WordsLanes(P, 8);
    IVPairs();
    assert WordBytes(B2b) == 8 && B2b.iv == Blake2bIV;
    var X, Y := Lanes(hw), InitialState(B2b, P);
    forall j | 0 <= j < 8
      ensures X[j] == Y[j]
    {
      InitialLane(P, IV, W, hw, j);
    }
  }

  /** Lane j of the xored words is the xor of lane j of A with little-endian lane j of the parameter block. */
  lemma InitialLane(P: seq<Byte>, A: seq<Word>, W: seq<nat>, hw: seq<Word>, j: nat)
    requires |P| == 64 && |A| == 16 && W == Words(P, 4, 16) && |hw| == 16 && j < 8
    requires hw[2 * j] == Xor(A[2 * j], W[2 * j]) && hw[2 * j + 1] == Xor(A[2 * j + 1], W[2 * j + 1])
    ensures Lanes(hw)[j] == Xor(Lanes(A)[j], Lanes(W)[j])
  {
    WordsAt(P, 4, 16, 2 * j);
    LittleEndian4(P[8 * j..8 * j + 4]);
    L.XorLane(A, W, hw, j);
  }

  /** The start of F for BLAKE2b written out: the counter into lanes 12 and 13, the flag into lane 14. */
  lemma InitWorkUnfolded(H: seq<nat>, t: nat, last: bool)
    requires |H| == 8
    ensures
      var V := H + B2b.iv;
      var V1 := V[12 := Xor(V[12], t % W64)][13 := Xor(V[13], (t / W64) % W64)];
      InitWork(B2b, H, t, last) == if last then V1[14 := W64 - 1 - V1[14] % W64] else V1
  {
    assert B2b.modulus == W64;
  }

  /** `v[24] ^= t` and `v[25] ^= t / 2^32` on the words xor the counter into lane 12 and nothing into lane 13. */
  lemma CounterLanes(V: seq<Word>, t: nat)
    requires |V| == 32 && t < MaxCounter
    ensures
      var X := Lanes(V);
      Lanes(V[24 := Xor32(V[24], t % W32)][25 := Xor32(V[25], (t / W32) % W32)])
        == X[12 := Xor(X[12], t % W64)][13 := Xor(X[13], (t / W64) % W64)]
  {
    L.LaneAt(V, 24);
    L.XorPair(V[24], V[25], t % W32, (t / W32) % W32);
    L.CounterPair(t);
    L.LanesUpdate(V, 24, Xor32(V[24], t % W32), Xor32(V[25], (t / W32) % W32));
    DivModUnique(t, 0, t, W64);
    DivModUnique(0, 0, 0, W64);
    XorZeroRight(Lanes(V)[13]);
  }

  /** G for BLAKE2b written out as its eight assignments, with the word size and rotations of the variant. */
  lemma GUnfolded(V: seq<nat>, a: nat, b: nat, c: nat, d: nat, x: nat, y: nat)
    requires |V| == 16 && a < 16 && b < 16 && c < 16 && d < 16
    ensures
      var V1 := AddStep(V, a, b, x, W64);
      var V2 := XorRotStep(V1, d, a, 32, 64);
      var V3 := AddStep(V2, c, d, 0, W64);
      var V4 := XorRotStep(V3, b, c, 24, 64);
      var V5 := AddStep(V4, a, b, y, W64);
      var V6 := XorRotStep(V5, d, a, 16, 64);
      var V7 := AddStep(V6, c, d, 0, W64);
      G(B2b, V, a, b, c, d, x, y) == XorRotStep(V7, b, c, 63, 64)
  {
    var p := B2b;
    assert p.modulus == W64 && p.w == 64 && p.r1 == 32 && p.r2 == 24 && p.r3 == 16 && p.r4 == 63;
    var V1 := AddStep(V, a, b, x, W64);
    assert GSteps(p, V, a, b, c, d, x, y, 1) == V1;
    var V2 := XorRotStep(V1, d, a, 32, 64);
    assert GSteps(p, V, a, b, c, d, x, y, 2) == V2;
    var V3 := AddStep(V2, c, d, 0, W64);
    assert GSteps(p, V, a, b, c, d, x, y, 3) == V3;
    var V4 := XorRotStep(V3, b, c, 24, 64);
    assert GSteps(p, V, a, b, c, d, x, y, 4) == V4;
    var V5 := AddStep(V4, a, b, y, W64);
    assert GSteps(p, V, a, b, c, d, x, y, 5) == V5;
    var V6 := XorRotStep(V5, d, a, 16, 64);
    assert GSteps(p, V, a, b, c, d, x, y, 6) == V6;
    var V7 := AddStep(V6, c, d, 0, W64);
    assert GSteps(p, V, a, b, c, d, x, y, 7) == V7;
  }

  /** Xoring pair j into pair i and storing the halves swapped rotates lane i/2 xor lane j/2 right by 32. */
  lemma SwapLanes(V: seq<Word>, i: nat, j: nat)
    requires |V| == 32 && i % 2 == 0 && j % 2 == 0 && i < 32 && j < 32
    ensures Lanes(V[i := Xor32(V[i + 1], V[j + 1])][i + 1 := Xor32(V[i], V[j])])
         == XorRotStep(Lanes(V), i / 2, j / 2, 32, 64)
  {
    var xor0, xor1 := Xor32(V[i], V[j]), Xor32(V[i + 1], V[j + 1]);
    L.LaneAt(V, i);
    L.LaneAt(V, j);
    L.XorPair(V[i], V[i + 1], V[j], V[j + 1]);
    L.RotPair32(xor0, xor1);
    L.LanesUpdate(V, i, xor1, xor0);
  }

  /** The half-by-half rotation by 0 < n < 32 of pair i xor pair j rotates lane i/2 xor lane j/2 right by n. */
  lemma RotLanes(V: seq<Word>, i: nat, j: nat, n: nat)
    requires |V| == 32 && i % 2 == 0 && j % 2 == 0 && i < 32 && j < 32 && 0 < n < 32
    ensures
      var xor0, xor1 := Xor32(V[i], V[j]), Xor32(V[i + 1], V[j + 1]);
      Lanes(V[i := RotHalf(xor0, xor1, n)][i + 1 := RotHalf(xor1, xor0, n)])
        == XorRotStep(Lanes(V), i / 2, j / 2, n, 64)
  {
    var xor0, xor1 := Xor32(V[i], V[j]), Xor32(V[i + 1], V[j + 1]);
    L.LaneAt(V, i);
    L.LaneAt(V, j);
    L.XorPair(V[i], V[i + 1], V[j], V[j + 1]);
    L.RotPair(xor0, xor1, n);
    L.LanesUpdate(V, i, RotHalf(xor0, xor1, n), RotHalf(xor1, xor0, n));
  }

  /** The swapped half rotations by 31 of pair i xor pair j rotate lane i/2 xor lane j/2 right by 63. */
  lemma Rot63Lanes(V: seq<Word>, i: nat, j: nat)
    requires |V| == 32 && i % 2 == 0 && j % 2 == 0 && i < 32 && j < 32
    ensures
      var xor0, xor1 := Xor32(V[i], V[j]), Xor32(V[i + 1], V[j + 1]);
      Lanes(V[i := RotHalf(xor1, xor0, 31)][i + 1 := RotHalf(xor0, xor1, 31)])
        == XorRotStep(Lanes(V), i / 2, j / 2, 63, 64)
  {
    var xor0, xor1 := Xor32(V[i], V[j]), Xor32(V[i + 1], V[j + 1]);
    L.LaneAt(V, i);
    L.LaneAt(V, j);
    L.XorPair(V[i], V[i + 1], V[j], V[j + 1]);
    L.RotPair63(xor0, xor1);
    L.LanesUpdate(V, i, RotHalf(xor1, xor0, 31), RotHalf(xor0, xor1, 31));
  }

  /** The validity checks of the constructor, in its order: length, key, salt, personalization. */
  function Validate(length: int, key: Option<seq<Byte>>, salt: Option<seq<Byte>>, personal: Option<seq<Byte>>): (r: Option<Error>)
    ensures r == Some(InvalidLength) <==> !(1 <= length <= 64)
    ensures r == Some(InvalidKey) <==> 1 <= length <= 64 && key.Some? && |key.value| > 64
    ensures r == Some(InvalidSalt) <==>
      1 <= length <= 64 && (key.Some? ==> |key.value| <= 64) && salt.Some? && |salt.value| != 16
    ensures r.None? <==>
      && 1 <= length <= 64 && (key.Some? ==> |key.value| <= 64)
      && (salt.Some? ==> |salt.value| == 16) && (personal.Some? ==> |personal.value| == 16)
    ensures r.Some? ==> r.value != Frozen
  {
    if !(1 <= length <= 64) then Some(InvalidLength)
    else if key.Some? && |key.value| > 64 then Some(InvalidKey)
    else if salt.Some? && |salt.value| != 16 then Some(InvalidSalt)
    else if personal.Some? && |personal.value| != 16 then Some(InvalidPersonal)
    else None
  }

  /** A salt or personalization as written into the parameter block: sixteen zero bytes when absent. */
  function OrZeros(x: Option<seq<Byte>>): (r: seq<Byte>)
    requires x.Some? ==> |x.value| == 16
    ensures |r| == 16
  {
    if x.Some? then x.value else Stream.Zeros(16)
  }

  /** The parameter block of an instance that passed Validate. */
  function Parameters(length: Byte, key: Option<seq<Byte>>, salt: Option<seq<Byte>>, personal: Option<seq<Byte>>): (P: seq<Byte>)
    requires key.Some? ==> |key.value| <= 64
    requires salt.Some? ==> |salt.value| == 16
    requires personal.Some? ==> |personal.value| == 16
    ensures |P| == 64
  {
    ParameterBlock(B2b, length, KeyLength(key), OrZeros(salt), OrZeros(personal))
  }

  /** `TypedArray.prototype.set(src, offset)`: src copied over the array from offset on. */
  method SetAt(P: array<Byte>, src: seq<Byte>, offset: nat)
    requires offset + |src| <= P.Length
    modifies P
    ensures P[..] == old(P[..offset]) + src + old(P[offset + |src|..])
    ensures forall j | 0 <= j < P.Length :: P[j] == if offset <= j < offset + |src| then src[j - offset] else old(P[j])
  {
    ghost var Q := P[..];
    for i := 0 to |src|
      invariant P[..] == Q[..offset] + src[..i] + Q[offset + i..]
    {
      P[offset + i] := src[i];
      assert src[..i + 1] == src[..i] + [src[i]];
    }
  }

  /**
   * `#parameterBlock` of the constructor: the template (fanout and depth 1,
   * everything else 0), then the digest length at 0, the key length at 1,
   * the salt at 32 and the personalization at 48, each when given.
   */
  method NewParameterBlock(length: Byte, key: Option<seq<Byte>>, salt: Option<seq<Byte>>, personal: Option<seq<Byte>>)
    returns (P: array<Byte>)
    requires key.Some? ==> |key.value| <= 64
    requires salt.Some? ==> |salt.value| == 16
    requires personal.Some? ==> |personal.value| == 16
    ensures fresh(P) && P[..] == Parameters(length, key, salt, personal)
  {
    P := new Byte[64](i => if i == 2 || i == 3 then 1 else 0);
    P[0] := length;
    if key.Some? {
      P[1] := |key.value|;
    }
    if salt.Some? {
      SetAt(P, NormalizeInput(salt.value), 32);
    }
    if personal.Some? {
      SetAt(P, NormalizeInput(personal.value), 48);
    }
    ghost var R := Parameters(length, key, salt, personal);
    forall i | 0 <= i < 64
      ensures P[i] == R[i]
    {
      ParametersAt(length, key, salt, personal, i);
    }
  }

  /** Byte i of the parameter block of the constructor. */
  lemma ParametersAt(length: Byte, key: Option<seq<Byte>>, salt: Option<seq<Byte>>, personal: Option<seq<Byte>>, i: nat)
    requires key.Some? ==> |key.value| <= 64
    requires salt.Some? ==> |salt.value| == 16
    requires personal.Some? ==> |personal.value| == 16
    requires i < 64
    ensures Parameters(length, key, salt, personal)[i]
         == if i == 0 then length
            else if i == 1 then KeyLength(key)
            else if i == 2 || i == 3 then 1
            else if i < 32 then 0
            else if i < 48 then OrZeros(salt)[i - 32]
            else OrZeros(personal)[i - 48]
  {
    var R := Parameters(length, key, salt, personal);
    var S, Q := OrZeros(salt), OrZeros(personal);
    assert R == [length, KeyLength(key), 1, 1] + Stream.Zeros(28) + S + Q;
    if i >= 48 {
      assert R[i] == Q[i - 48];
    } else if i >= 32 {
      assert R[i] == S[i - 32];
    }
  }

  /** The fresh buffers of the constructor: the zeroed block buffer, the state, and the message and work vectors. */
  method NewArrays() returns (b: array<Byte>, h: array<Word>, m: array<Word>, v: array<Word>)
    ensures fresh(b) && fresh(h) && fresh(m) && fresh(v)
    ensures b[..] == Stream.Zeros(BlockBytes) && h.Length == 16 && m.Length == 32 && v.Length == 32
    ensures h != m && h != v && m != v
  {
    b := new Byte[BlockBytes](_ => 0);
    h := new Word[16](_ => 0);
    m := new Word[32](_ => 0);
    v := new Word[32](_ => 0);
  }

  /** The state of the constructor, `h[i] = iv[i] ^ get32(P, 4i)`: the RFC initial state for P on lanes. */
  method InitStateInto(h: array<Word>, P: seq<Byte>)
    requires |P| == 64 && h.Length == 16
    modifies h
    ensures Lanes(h[..]) == InitialState(B2b, P)
  {
    XorWordsInto(h, IV, P);
    InitialLanes(P, h[..]);
  }

  /** The loop of the constructor: word i of the state is word i of A xored with the little-endian word at 4i in P. */
  method XorWordsInto(h: array<Word>, A: seq<Word>, P: seq<Byte>)
    requires |P| == 64 && |A| == 16 && h.Length == 16
    modifies h
    ensures forall k | 0 <= k < 16 :: h[k] == Xor(A[k], Words(P, 4, 16)[k])
  {
    ghost var W := Words(P, 4, 16);
    for i := 0 to 16
      invariant forall k {:trigger h[k]} | 0 <= k < i :: h[k] == Xor(A[k], W[k])
    {
      var w := Get32(P, 4 * i);
      WordsAt(P, 4, 16, i);
      h[i] := Xor32(A[i], w);
    }
  }

  class Blake2B {
    var frozen: bool
    var hashHex: Option<string>
    var hashBytes: Option<seq<Byte>>
    const b: array<Byte>
    /** Cursor within the buffer. */
    var c: nat
    /** The chained state, word 2i the low and word 2i + 1 the high half of state word i. */
    const h: array<Word>
    /** Digest length in bytes. */
    const length: nat
    const m: array<Word>
    /** Bytes counted so far. */
    var t: nat
    const v: array<Word>
    /** The chained state the engine started from. */
    ghost const h0: seq<nat>
    /** Every byte absorbed since, the key block first. */
    ghost var message: seq<Byte>

    /** The buffer, cursor, counter and the joined state as a stream engine. */
    ghost function Engine(): Stream.Engine
      requires h.Length == 16
      reads this, b, h
    {
      Stream.Engine(b[..], c, t, Lanes(h[..]))
    }

    ghost predicate Valid()
      reads this, b, h, m, v
    {
      && b.Length == BlockBytes && h.Length == 16 && m.Length == 32 && v.Length == 32
      && h != m && h != v && m != v
      && 1 <= length <= 64 && |h0| == 8
      && (hashBytes.None? ==>
            Stream.Represents(BlockBytes, Compressor(B2b), Engine(), h0, message) && |message| < MaxCounter)
      && (hashBytes.Some? ==> frozen && hashBytes.value == Digest(B2b, h0, message, length))
      && (hashHex.Some? ==> hashBytes.Some? && hashHex.value == Hex.Encode(hashBytes.value))
    }

    /** `ADD64AA(v, a, b)` on the work vector: lane a/2 plus lane b/2, mod 2^64. */
    method AddInto(a: nat, b: nat)
      requires v.Length == 32 && a % 2 == 0 && b % 2 == 0 && a < 32 && b < 32
      modifies v
      ensures Lanes(v[..]) == AddStep(Lanes(old(v[..])), a / 2, b / 2, 0, W64)
    {
      ghost var V := v[..];
      Add64AA(v, a, b);
      L.LaneAt(V, a);
      L.LaneAt(V, b);
      L.LanesUpdate(V, a, v[a], v[a + 1]);
    }

    /** `ADD64AC(v, a, x0, x1)` on the work vector: lane a/2 plus the 64-bit word (x0, x1), mod 2^64. */
    method AddConstInto(a: nat, x0: Word, x1: Word)
      requires v.Length == 32 && a % 2 == 0 && a < 32
      modifies v
      ensures
        var V := Lanes(old(v[..]));
        Lanes(v[..]) == V[a / 2 := (V[a / 2] + Join(x0, x1)) % W64]
    {
      ghost var V := v[..];
      Add64AC(v, a, x0, x1);
      L.LaneAt(V, a);
      L.LanesUpdate(V, a, v[a], v[a + 1]);
    }

    /** `ADD64AA(v, a, b)` then `ADD64AC(v, a, x0, x1)`: lane a/2 plus lane b/2 plus the message word (x0, x1), mod 2^64. */
    method AddWordInto(a: nat, b: nat, x0: Word, x1: Word)
      requires v.Length == 32 && a % 2 == 0 && b % 2 == 0 && a < 32 && b < 32
      modifies v
      ensures Lanes(v[..]) == AddStep(Lanes(old(v[..])), a / 2, b / 2, Join(x0, x1), W64)
    {
      ghost var V, i, X := Lanes(v[..]), a / 2, Join(x0, x1);
      ghost var S := V[i] + V[b / 2];
      AddInto(a, b);
      assert Lanes(v[..]) == V[i := S % W64];
      AddConstInto(a, x0, x1);
      assert Lanes(v[..]) == V[i := (S % W64 + X) % W64];
      ModAddMod(S, X, W64);
    }

    /** `v[i,i+1] = v[i,i+1] xor v[j,j+1]` with the halves stored swapped: the xor rotated right by 32. */
    method SwapInto(i: nat, j: nat)
      requires v.Length == 32 && i % 2 == 0 && j % 2 == 0 && i < 32 && j < 32
      modifies v
      ensures Lanes(v[..]) == XorRotStep(Lanes(old(v[..])), i / 2, j / 2, 32, 64)
    {
      ghost var V := v[..];
      var xor0 := Xor32(v[i], v[j]);
      var xor1 := Xor32(v[i + 1], v[j + 1]);
      v[i] := xor1;
      v[i + 1] := xor0;
      SwapLanes(V, i, j);
    }

    /** `v[i,i+1] = v[i,i+1] xor v[j,j+1]` rotated right by n, 0 < n < 32, half by half. */
    method RotInto(i: nat, j: nat, n: nat)
      requires v.Length == 32 && i % 2 == 0 && j % 2 == 0 && i < 32 && j < 32 && 0 < n < 32
      modifies v
      ensures Lanes(v[..]) == XorRotStep(Lanes(old(v[..])), i / 2, j / 2, n, 64)
    {
      ghost var V := v[..];
      var xor0 := Xor32(v[i], v[j]);
      var xor1 := Xor32(v[i + 1], v[j + 1]);
      v[i] := RotHalf(xor0, xor1, n);
      v[i + 1] := RotHalf(xor1, xor0, n);
      RotLanes(V, i, j, n);
    }

    /** `v[i,i+1] = v[i,i+1] xor v[j,j+1]` rotated right by 63: the halves swapped and rotated right by 31. */
    method Rot63Into(i: nat, j: nat)
      requires v.Length == 32 && i % 2 == 0 && j % 2 == 0 && i < 32 && j < 32
      modifies v
      ensures Lanes(v[..]) == XorRotStep(Lanes(old(v[..])), i / 2, j / 2, 63, 64)
    {
      ghost var V := v[..];
      var xor0 := Xor32(v[i], v[j]);
      var xor1 := Xor32(v[i + 1], v[j + 1]);
      v[i] := RotHalf(xor1, xor0, 31);
      v[i + 1] := RotHalf(xor0, xor1, 31);
      Rot63Lanes(V, i, j);
    }

    /**
     * `#gMix(a, b, c, d, ix, iy)`: the mixing function G on the lanes of the
     * work vector at word indices a, b, c, d, with the message words at
     * word indices ix and iy.
     */
    method GMix(a: nat, b: nat, c: nat, d: nat, ix: nat, iy: nat)
      requires v.Length == 32 && m.Length == 32 && m != v
      requires a % 2 == 0 && b % 2 == 0 && c % 2 == 0 && d % 2 == 0 && a < 32 && b < 32 && c < 32 && d < 32
      requires ix + 1 < 32 && iy + 1 < 32
      modifies v
      ensures Lanes(v[..]) == G(B2b, Lanes(old(v[..])), a / 2, b / 2, c / 2, d / 2, Join(m[ix], m[ix + 1]), Join(m[iy], m[iy + 1]))
    {
      var x0, x1, y0, y1 := m[ix], m[ix + 1], m[iy], m[iy + 1];
      GUnfolded(Lanes(v[..]), a / 2, b / 2, c / 2, d / 2, Join(x0, x1), Join(y0, y1));
      AddWordInto(a, b, x0, x1);
      SwapInto(d, a);
      AddInto(c, d);
      RotInto(b, c, 24);
      AddWordInto(a, b, y0, y1);
      RotInto(d, a, 16);
      AddInto(c, d);
      Rot63Into(b, c);
    }

    /** The first loop of `#compress`: the state into v[0..15] and the IV into v[16..31]. */
    method LoadWork()
      requires h.Length == 16 && v.Length == 32 && h != v
      modifies v
      ensures Lanes(v[..]) == Lanes(h[..]) + B2b.iv
    {
      for i := 0 to 16
        invariant v[..i] == h[..i] && v[16..16 + i] == IV[..i]
      {
        v[i] := h[i];
        v[i + 16] := IV[i];
      }
      assert v[..] == h[..] + IV;
      L.LanesAppend(h[..], IV);
      IVPairs();
    }

    /** The counter of `#compress`: `v[24] ^= t` and `v[25] ^= t / 2^32`, the counter xored into lane 12. */
    method CounterInto()
      requires v.Length == 32 && t < MaxCounter
      modifies v
      ensures
        var V := Lanes(old(v[..]));
        Lanes(v[..]) == V[12 := Xor(V[12], t % W64)][13 := Xor(V[13], (t / W64) % W64)]
    {
      ghost var V := v[..];
      v[24] := Xor32(v[24], t % W32);
      v[25] := Xor32(v[25], (t / W32) % W32);
      CounterLanes(V, t);
    }

    /** The last-block flag of `#compress`: `v[28] = ~v[28]` and `v[29] = ~v[29]`, lane 14 inverted. */
    method LastInto()
      requires v.Length == 32
      modifies v
      ensures
        var V := Lanes(old(v[..]));
        Lanes(v[..]) == V[14 := W64 - 1 - V[14] % W64]
    {
      ghost var V := v[..];
      v[28] := Not32(v[28]);
      v[29] := Not32(v[29]);
      L.NotPair(V[28], V[29]);
      L.JoinBound(V[28], V[29]);
      L.LanesUpdate(V, 28, v[28], v[29]);
    }

    /** The start of `#compress`: the work vector with the counter and, for the last block, the flag. */
    method InitWorkInto(last: bool)
      requires h.Length == 16 && v.Length == 32 && h != v
      requires t < MaxCounter
      modifies v
      ensures Lanes(v[..]) == InitWork(B2b, Lanes(h[..]), t, last)
    {
      InitWorkUnfolded(Lanes(h[..]), t, last);
      LoadWork();
      CounterInto();
      if last {
        LastInto();
      }
    }

    /** The message words of `#compress`: `get32` of the buffer at 4i, 32 words, joined into sixteen lanes. */
    method LoadMessage()
      requires b.Length == BlockBytes && m.Length == 32
      modifies m
      ensures Lanes(m[..]) == MessageWords(B2b, b[..])
    {
      ghost var B := b[..];
      for i := 0 to 32
        invariant m[..i] == Words(B, 4, i)
      {
        var w := Get32(b[..], 4 * i);
        assert Words(B, 4, i + 1) == Words(B, 4, i) + [w];
        m[i] := w;
        assert m[..i + 1] == m[..i] + [w];
      }
      L.WordsLanes(b[..], 16);
    }

    /** The `#gMix` call at position k of a round; s holds the doubled entries of SIGMA row `row`. */
    method GMixAt(s: seq<nat>, ghost row: seq<Index16>, k: nat)
      requires |s| == 16 && |row| == 16 && k < 8 && m.Length == 32 && v.Length == 32 && m != v
      requires forall j | 0 <= j < 16 :: s[j] == 2 * (row[j] as int)
      modifies v
      ensures
        var (a, b, c, d) := Positions[k];
        Lanes(v[..]) == G(B2b, Lanes(old(v[..])), a, b, c, d, Lanes(m[..])[row[2 * k]], Lanes(m[..])[row[2 * k + 1]])
    {
      var (a, b, c, d) := Positions[k];
      var ix, iy := s[2 * k], s[2 * k + 1];
      assert ix == 2 * (row[2 * k] as int) && iy == 2 * (row[2 * k + 1] as int);
      L.LaneAt(m[..], ix);
      L.LaneAt(m[..], iy);
      assert ix / 2 == row[2 * k] && iy / 2 == row[2 * k + 1];
      var a2, b2, c2, d2 := 2 * (a as int), 2 * (b as int), 2 * (c as int), 2 * (d as int);
      assert a2 / 2 == a && b2 / 2 == b && c2 / 2 == c && d2 / 2 == d;
      assert a2 % 2 == 0 && b2 % 2 == 0 && c2 % 2 == 0 && d2 % 2 == 0;
      GMix(a2, b2, c2, d2, ix, iy);
    }

    /** One round of `#compress`: the eight `#gMix` calls with the message words a SIGMA row selects. */
    method RoundInto(s: seq<nat>, ghost row: seq<Index16>)
      requires |s| == 16 && |row| == 16 && m.Length == 32 && v.Length == 32 && m != v
      requires forall j | 0 <= j < 16 :: s[j] == 2 * (row[j] as int)
      modifies v
      ensures Lanes(v[..]) == Mix(B2b, Lanes(old(v[..])), Lanes(m[..]), row, 8)
    {
      ghost var V, M := Lanes(v[..]), m[..];
      for k := 0 to 8
        invariant m[..] == M && Lanes(v[..]) == Mix(B2b, V, Lanes(M), row, k)
      {
        ghost var U := Lanes(v[..]);
        GMixAt(s, row, k);
        MixNext(B2b, V, Lanes(M), row, k, U, Lanes(v[..]));
      }
    }

    /** Round i of `#compress`, i < 12: SIGMA row i mod 10 through `sigma64`. */
    method RoundAt(i: nat)
      requires i < 12 && m.Length == 32 && v.Length == 32 && m != v
      modifies v
      ensures Lanes(v[..]) == Round(B2b, Lanes(old(v[..])), Lanes(m[..]), i)
    {
      var s := SigmaRowAt(i);
      RoundInto(s, SigmaRow(i % 10));
    }

    /** The twelve rounds of `#compress`. */
    method RoundsInto()
      requires m.Length == 32 && v.Length == 32 && m != v
      modifies v
      ensures Lanes(v[..]) == Rounds(B2b, Lanes(old(v[..])), Lanes(m[..]), 12)
    {
      for i := 0 to 12
        invariant Lanes(v[..]) == Rounds(B2b, Lanes(old(v[..])), Lanes(m[..]), i)
      {
        RoundAt(i);
      }
    }

    /** The end of `#compress`: `h[i] = h[i] ^ v[i] ^ v[i + 16]`. */
    method FoldInto()
      requires h.Length == 16 && v.Length == 32 && h != v
      modifies h
      ensures Lanes(h[..]) == Fold(Lanes(old(h[..])), Lanes(v[..]))
    {
      ghost var H: seq<Word> := h[..];
      for i := 0 to 16
        invariant forall k | 0 <= k < i :: h[k] == Xor(Xor(H[k], v[k]), v[k + 16])
        invariant forall k | i <= k < 16 :: h[k] == H[k]
      {
        h[i] := Xor32(Xor32(h[i], v[i]), v[i + 16]);
      }
      L.FoldPairs(H, v[..], h[..]);
    }

    /** `#compress` up to the fold: the work vector after the twelve rounds. */
    method WorkInto(last: bool)
      requires b.Length == BlockBytes && h.Length == 16 && m.Length == 32 && v.Length == 32
      requires h != m && h != v && m != v
      requires t < MaxCounter
      modifies m, v
      ensures h[..] == old(h[..]) && b[..] == old(b[..])
      ensures Lanes(v[..]) == Rounds(B2b, InitWork(B2b, Lanes(h[..]), t, last), MessageWords(B2b, b[..]), B2b.rounds)
    {
      InitWorkInto(last);
      LoadMessage();
      RoundsInto();
    }

    /** `#compress`: F on the buffered block, the counter t and the flag, into the lanes of h. */
    method Compress(last: bool)
      requires b.Length == BlockBytes && h.Length == 16 && m.Length == 32 && v.Length == 32
      requires h != m && h != v && m != v
      requires t < MaxCounter
      modifies h, m, v
      ensures Lanes(h[..]) == Blake2.Compress(B2b, Lanes(old(h[..])), old(b[..]), t, last)
    {
      WorkInto(last);
      FoldInto();
    }

    /**
     * The constructor: the checked length, the parameter block with the
     * key length, salt and personalization, the state `iv[i] ^ get32(P, 4i)`,
     * then the key block and the data absorbed.
     */
    constructor (length: int, key: Option<seq<Byte>>, salt: Option<seq<Byte>>, personal: Option<seq<Byte>>,
                 data: Option<seq<Byte>>)
      requires Validate(length, key, salt, personal).None?
      requires data.Some? ==> BlockBytes + |data.value| < MaxCounter
      ensures Valid() && !frozen && hashBytes.None? && hashHex.None?
      ensures this.length == length
      ensures h0 == InitialState(B2b, Parameters(length, key, salt, personal))
      ensures message == Stream.InitialMessage(BlockBytes, key, data)
      ensures fresh(b) && fresh(h) && fresh(m) && fresh(v)
    {
      this.length := length;
      var P := NewParameterBlock(length, key, salt, personal);
      var b0, h1, m0, v0 := NewArrays();
      InitStateInto(h1, P[..]);
      b, h, m, v := b0, h1, m0, v0;
      c := 0;
      t := 0;
      frozen := false;
      hashHex := None;
      hashBytes := None;
      h0 := Lanes(h1[..]);
      message := [];
      new;
      Setup(key, data);
    }

    /** The constructor after the state is set up: the key block absorbed, then the data. */
    method Setup(key: Option<seq<Byte>>, data: Option<seq<Byte>>)
      requires b.Length == BlockBytes && h.Length == 16 && m.Length == 32 && v.Length == 32
      requires h != m && h != v && m != v && 1 <= length <= 64
      requires key.Some? ==> |key.value| <= 64
      requires data.Some? ==> BlockBytes + |data.value| < MaxCounter
      requires b[..] == Stream.Zeros(BlockBytes) && c == 0 && t == 0 && Lanes(h[..]) == h0 && !frozen
      requires message == [] && hashBytes.None? && hashHex.None?
      modifies this`c, this`t, this`message, b, h, m, v
      ensures Valid() && message == Stream.InitialMessage(BlockBytes, key, data)
    {
      Stream.StartRepresents(BlockBytes, Compressor(B2b), h0);
      if key.Some? {
        AbsorbKey(key.value);
      }
      // Absorbing no data leaves the engine as it is, so a missing data argument absorbs [].
      var d := if data.Some? then data.value else [];
      assert Stream.InitialMessage(BlockBytes, key, data) == Stream.InitialMessage(BlockBytes, key, None) + d;
      Extend(d);
    }

    /** The key part of the constructor: `update(key)` into the fresh engine, then the cursor forced to a full block. */
    method AbsorbKey(key: seq<Byte>)
      requires b.Length == BlockBytes && h.Length == 16 && m.Length == 32 && v.Length == 32
      requires h != m && h != v && m != v && |key| <= BlockBytes
      requires Engine() == Stream.Start(BlockBytes, h0)
      modifies this`c, this`t, this`message, b, h, m, v
      ensures Stream.Represents(BlockBytes, Compressor(B2b), Engine(), h0, message)
      ensures message == Stream.KeyBlock(BlockBytes, key)
    {
      var bytes := NormalizeInput(key);
      AbsorbAll(bytes);
      c := BlockBytes;
      Stream.KeyedRepresents(BlockBytes, Compressor(B2b), h0, key);
      message := Stream.KeyBlock(BlockBytes, key);
    }

    /** `freeze`: from now on `update` is refused. */
    method Freeze()
      requires Valid()
      modifies this`frozen
      ensures Valid() && frozen
    {
      frozen := true;
    }

    /** The zero fill of `hash`: `b[c++] = 0` until the buffer is full. */
    method PadInto()
      requires b.Length == BlockBytes && c <= BlockBytes
      modifies this`c, b
      ensures c == BlockBytes && b[..] == old(b[..c]) + Stream.Zeros(BlockBytes - old(c))
    {
      ghost var B, C := b[..], c;
      while c < BlockBytes
        invariant C <= c <= BlockBytes
        invariant b[..c] == B[..C] + Stream.Zeros(c - C)
        decreases BlockBytes - c
      {
        b[c] := 0;
        c := c + 1;
        assert b[..c] == b[..c - 1] + [0];
        assert Stream.Zeros(c - C) == Stream.Zeros(c - 1 - C) + [0];
      }
      assert b[..] == b[..c];
    }

    /** The final block of `hash`: the cursor added to the counter, the buffer zero-filled and compressed as last. */
    method FinishInto()
      requires b.Length == BlockBytes && h.Length == 16 && m.Length == 32 && v.Length == 32
      requires h != m && h != v && m != v
      requires c <= BlockBytes && t + c < MaxCounter
      modifies this`c, this`t, b, h, m, v
      ensures Lanes(h[..]) == Stream.Finish(BlockBytes, Compressor(B2b), old(Engine()))
    {
      ghost var E := Engine();
      t := t + c;
      PadInto();
      ghost var B := b[..];
      Compress(true);
      FinishCompress(B2b, E, B, t, Lanes(h[..]));
    }

    /** The output loop of `hash`: byte i is `h[i >> 2] >> (8 * (i & 3))` stored into a Uint8Array. */
    method OutputBytes() returns (out: seq<Byte>)
      requires h.Length == 16 && length <= 64
      ensures out == Output(B2b, Lanes(h[..]), length)
    {
      ghost var S := StateBytes(h[..], 4);
      var a := new Byte[length];
      for i := 0 to length
        invariant forall j | 0 <= j < i :: a[j] == S[j]
      {
        var q, r := i / 4, i % 4;
        var x := h[q];
        SarByte(x, r);
        StateBytes4At(h[..], i);
        a[i] := Sar32(x, 8 * r) % 0x100;
      }
      out := a[..];
      L.LanesBytes(h[..]);
    }

    /**
     * `hash`: freezes the instance; the first call finishes the engine and
     * stores the digest, every call returns the stored digest.
     */
    method Hash() returns (r: seq<Byte>)
      requires Valid()
      modifies this`frozen, this`hashBytes, this`c, this`t, b, h, m, v
      ensures Valid() && frozen && hashBytes == Some(r)
      ensures r == Digest(B2b, h0, message, length)
      ensures old(hashBytes).Some? ==> r == old(hashBytes).value
    {
      frozen := true;
      if hashBytes.None? {
        StoreDigest();
      }
      r := hashBytes.value;
    }

    /** The first call of `hash`: the engine finished, the digest bytes read out of the state and stored. */
    method StoreDigest()
      requires Valid() && frozen && hashBytes.None?
      modifies this`hashBytes, this`c, this`t, b, h, m, v
      ensures Valid() && frozen && hashBytes == Some(Digest(B2b, h0, message, length))
    {
      var out := FinishDigest();
      hashBytes := Some(out);
    }

    /** The digest `hash` computes: the engine finished and the first `length` bytes of the state read out. */
    method FinishDigest() returns (out: seq<Byte>)
      requires b.Length == BlockBytes && h.Length == 16 && m.Length == 32 && v.Length == 32
      requires h != m && h != v && m != v && 1 <= length <= 64 && |h0| == 8
      requires Stream.Represents(BlockBytes, Compressor(B2b), Engine(), h0, message) && |message| < MaxCounter
      modifies this`c, this`t, b, h, m, v
      ensures out == Digest(B2b, h0, message, length)
    {
      ghost var E := Engine();
      FinishInto();
      out := OutputBytes();
      DigestOfFinish(B2b, E, h0, message, Lanes(h[..]), length, out);
    }

    /** `hashHex`: the digest in upper-case hexadecimal, computed once and then stored. */
    method HashHex() returns (r: string)
      requires Valid()
      modifies this`frozen, this`hashBytes, this`hashHex, this`c, this`t, b, h, m, v
      ensures Valid() && frozen && hashHex == Some(r)
      ensures r == Hex.Encode(Digest(B2b, h0, message, length))
    {
      if hashHex.None? {
        var bytes := Hash();
        hashHex := Some(Hex.Encode(bytes));
      }
      r := hashHex.value;
    }

    /** A full buffer in `update`: counted, compressed (not last) and emptied. */
    method FlushInto()
      requires b.Length == BlockBytes && h.Length == 16 && m.Length == 32 && v.Length == 32
      requires h != m && h != v && m != v
      requires c == BlockBytes && t + c < MaxCounter
      modifies this`c, this`t, h, m, v
      ensures c == 0 && t == old(t) + BlockBytes
      ensures Lanes(h[..]) == Blake2.Compress(B2b, Lanes(old(h[..])), b[..], t, false)
    {
      t := t + c;
      Compress(false);
      c := 0;
    }

    /** One byte of `update`: a full buffer is counted and compressed (not last) before the byte is stored at the cursor. */
    method AbsorbByteInto(x: Byte)
      requires b.Length == BlockBytes && h.Length == 16 && m.Length == 32 && v.Length == 32
      requires h != m && h != v && m != v
      requires c <= BlockBytes && t + c < MaxCounter
      modifies this`c, this`t, b, h, m, v
      ensures Engine() == Stream.AbsorbByte(BlockBytes, Compressor(B2b), old(Engine()), x)
    {
      ghost var E := Engine();
      if c == BlockBytes {
        FlushInto();
        CompressorApply(B2b, E.h, E.b, E.t + BlockBytes, false);
        Stream.AbsorbByteFull(BlockBytes, Compressor(B2b), E, x, Lanes(h[..]));
      }
      StoreByte(x);
    }

    /** `this.#b[this.#c++] = byte`: the byte stored at the cursor, which moves on by one. */
    method StoreByte(x: Byte)
      requires b.Length == BlockBytes && c < BlockBytes
      modifies this`c, b
      ensures b[..] == old(b[..])[old(c) := x] && c == old(c) + 1
    {
      b[c] := x;
      c := c + 1;
    }

    /** The loop of `update`: every byte of data absorbed in order. */
    method AbsorbAll(data: seq<Byte>)
      requires b.Length == BlockBytes && h.Length == 16 && m.Length == 32 && v.Length == 32
      requires h != m && h != v && m != v
      requires c <= BlockBytes && t + c + |data| < MaxCounter
      modifies this`c, this`t, b, h, m, v
      ensures Engine() == Stream.Absorb(BlockBytes, Compressor(B2b), old(Engine()), data)
    {
      ghost var E := Engine();
      for i := 0 to |data|
        invariant Engine() == Stream.Absorb(BlockBytes, Compressor(B2b), E, data[..i])
      {
        assert data[..i + 1][..i] == data[..i];
        AbsorbByteInto(data[i]);
      }
      assert data[..|data|] == data;
    }

    /** `update`: refused once frozen; otherwise every byte of data absorbed in order. */
    method Update(data: seq<Byte>) returns (r: Option<Error>)
      requires Valid() && (!frozen ==> |message| + |data| < MaxCounter)
      modifies this`c, this`t, this`message, b, h, m, v
      ensures Valid()
      ensures old(frozen) ==> r == Some(Frozen) && message == old(message) && Engine() == old(Engine())
      ensures !old(frozen) ==> r.None? && message == old(message) + data
      ensures !old(frozen) ==> Engine() == Stream.Absorb(BlockBytes, Compressor(B2b), old(Engine()), data)
    {
      if frozen {
        return Some(Frozen);
      }
      Extend(data);
      return None;
    }

    /** `update` once the frozen check has passed. */
    method Extend(data: seq<Byte>)
      requires Valid() && !frozen && |message| + |data| < MaxCounter
      modifies this`c, this`t, this`message, b, h, m, v
      ensures Valid() && message == old(message) + data
      ensures Engine() == Stream.Absorb(BlockBytes, Compressor(B2b), old(Engine()), data)
    {
      ghost var E := Engine();
      var bytes := NormalizeInput(data);
      AbsorbAll(bytes);
      Stream.AbsorbRepresents(BlockBytes, Compressor(B2b), E, h0, message, bytes);
      message := message + bytes;
    }
  }

  /** `new Blake2B(...)`: the constructor's TypeError as a failure, otherwise a fresh valid instance. */
  method Create(length: int, key: Option<seq<Byte>>, salt: Option<seq<Byte>>, personal: Option<seq<Byte>>,
                data: Option<seq<Byte>>)
    returns (r: Result<Blake2B, Error>)
    requires data.Some? ==> BlockBytes + |data.value| < MaxCounter
    ensures Validate(length, key, salt, personal).Some? ==> r == Failure(Validate(length, key, salt, personal).value)
    ensures Validate(length, key, salt, personal).None? ==>
      && r.Success? && fresh(r.value) && r.value.Valid() && !r.value.frozen
      && r.value.length == length
      && r.value.h0 == InitialState(B2b, Parameters(length, key, salt, personal))
      && r.value.message == Stream.InitialMessage(BlockBytes, key, data)
  {
    var e := Validate(length, key, salt, personal);
    if e.Some? {
      return Failure(e.value);
    }
    var x := new Blake2B(length, key, salt, personal, data);
    return Success(x);
  }
}
