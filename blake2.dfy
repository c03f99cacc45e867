/**
 * BLAKE2 as RFC 7693 defines it, over unbounded naturals: the mixing
 * function G (section 3.1), the compression function F (section 3.2), the
 * little-endian message words (section 2.4) and the digest serialisation.
 * Both engines are proved to compute these functions; BLAKE2b and BLAKE2s
 * differ only in the parameters of a Variant.
 */
module Blake2 {
  import opened Bits
  import opened Common
  import Stream

  /**
   * Word size w in bits and the word modulus 2^w, rounds, block bytes, the G
   * rotations R1..R4 and the IV (section 2.1).
   */
  datatype Variant = Variant(w: nat, modulus: nat, rounds: nat, blockBytes: nat, r1: nat, r2: nat, r3: nat, r4: nat, iv: seq<nat>)

  const B2b: Variant := Variant(64, W64, 12, 128, 32, 24, 16, 63, Blake2bIV)
  const B2s: Variant := Variant(32, W32, 10, 64, 16, 12, 8, 7, Blake2sIV)

  predicate Supported(p: Variant)
  {
    p == B2b || p == B2s
  }

  /** Bytes per word: 8 for BLAKE2b, 4 for BLAKE2s. */
  function WordBytes(p: Variant): nat
  {
    p.w / 8
  }

  /** The addition step of G: v[i] := (v[i] + v[j] + x) mod m. */
  function AddStep(v: seq<nat>, i: nat, j: nat, x: nat, m: nat): (r: seq<nat>)
    requires i < |v| && j < |v| && m > 0
    ensures |r| == |v|
  {
    v[i := (v[i] + v[j] + x) % m]
  }

  /** The xor-and-rotate step of G: v[i] := (v[i] xor v[j]) >>> n on w-bit words. */
  function XorRotStep(v: seq<nat>, i: nat, j: nat, n: nat, w: nat): (r: seq<nat>)
    requires i < |v| && j < |v| && n <= w
    ensures |r| == |v|
  {
    v[i := RotR(Xor(v[i], v[j]), n, w)]
  }

  /**
   * Assignment k of the mixing function G (section 3.1 of RFC 7693), k < 8:
   * the even ones add, the odd ones xor and rotate by R1..R4.
   */
  function GStep(p: Variant, v: seq<nat>, a: nat, b: nat, c: nat, d: nat, x: nat, y: nat, k: nat): (r: seq<nat>)
    requires Supported(p)
    requires |v| == 16 && a < 16 && b < 16 && c < 16 && d < 16
    ensures |r| == 16
  {
    var m := p.modulus;
    match k
    case 0 => AddStep(v, a, b, x, m)
    case 1 => XorRotStep(v, d, a, p.r1, p.w)
    case 2 => AddStep(v, c, d, 0, m)
    case 3 => XorRotStep(v, b, c, p.r2, p.w)
    case 4 => AddStep(v, a, b, y, m)
    case 5 => XorRotStep(v, d, a, p.r3, p.w)
    case 6 => AddStep(v, c, d, 0, m)
    case _ => XorRotStep(v, b, c, p.r4, p.w)
  }

  /** The first k assignments of G, in order. */
  function GSteps(p: Variant, v: seq<nat>, a: nat, b: nat, c: nat, d: nat, x: nat, y: nat, k: nat): (r: seq<nat>)
    requires Supported(p)
    requires |v| == 16 && a < 16 && b < 16 && c < 16 && d < 16 && k <= 8
    ensures |r| == 16
  {
    if k == 0 then v else GStep(p, GSteps(p, v, a, b, c, d, x, y, k - 1), a, b, c, d, x, y, k - 1)
  }

  /** The mixing function G (section 3.1 of RFC 7693) on a 16-word work vector. */
  function G(p: Variant, v: seq<nat>, a: nat, b: nat, c: nat, d: nat, x: nat, y: nat): (r: seq<nat>)
    requires Supported(p)
    requires |v| == 16 && a < 16 && b < 16 && c < 16 && d < 16
    ensures |r| == 16
  {
    GSteps(p, v, a, b, c, d, x, y, 8)
  }

  /** The positions (a, b, c, d) of the eight applications of G in a round: four columns, then four diagonals. */
  const Positions: seq<(Index16, Index16, Index16, Index16)> := [
    (0, 4, 8, 12), (1, 5, 9, 13), (2, 6, 10, 14), (3, 7, 11, 15),
    (0, 5, 10, 15), (1, 6, 11, 12), (2, 7, 8, 13), (3, 4, 9, 14)
  ]

  /**
   * The first n applications of G in a round, in order; the one at position
   * j takes the message words m[s[2j]] and m[s[2j + 1]].
   */
  function Mix(p: Variant, v: seq<nat>, m: seq<nat>, s: seq<Index16>, n: nat): (res: seq<nat>)
    requires Supported(p) && |v| == 16 && |m| == 16 && |s| == 16 && n <= 8
    ensures |res| == 16
  {
    if n == 0 then v
    else
      var k := n - 1;
      var (a, b, c, d) := Positions[k];
      G(p, Mix(p, v, m, s, k), a, b, c, d, m[s[2 * k]], m[s[2 * k + 1]])
  }

  /** The application of G at position k extends the first k applications to the first k + 1. */
  lemma MixNext(p: Variant, v: seq<nat>, m: seq<nat>, s: seq<Index16>, k: nat, u: seq<nat>, w: seq<nat>)
    requires Supported(p) && |v| == 16 && |m| == 16 && |s| == 16 && k < 8
    requires u == Mix(p, v, m, s, k)
    requires var (a, b, c, d) := Positions[k]; w == G(p, u, a, b, c, d, m[s[2 * k]], m[s[2 * k + 1]])
    ensures w == Mix(p, v, m, s, k + 1)
  {
  }

  /** Round r of F: the eight applications of G with SIGMA row r mod 10. */
  function Round(p: Variant, v: seq<nat>, m: seq<nat>, r: nat): (res: seq<nat>)
    requires Supported(p) && |v| == 16 && |m| == 16
    ensures |res| == 16
  {
    Mix(p, v, m, SigmaRow(r % 10), 8)
  }

  /** The first n rounds of F. */
  function Rounds(p: Variant, v: seq<nat>, m: seq<nat>, n: nat): (res: seq<nat>)
    requires Supported(p) && |v| == 16 && |m| == 16
    ensures |res| == 16
  {
    if n == 0 then v else Round(p, Rounds(p, v, m, n - 1), m, n - 1)
  }

  /**
   * The work vector F starts from: the state followed by the IV, the offset
   * counter t (a double word) xored into words 12 and 13, and word 14
   * inverted for the last block.
   */
  function InitWork(p: Variant, h: seq<nat>, t: nat, last: bool): (v: seq<nat>)
    requires Supported(p) && |h| == 8
    ensures |v| == 16
  {
    var m := p.modulus;
    var v0 := h + p.iv;
    var v1 := v0[12 := Xor(v0[12], t % m)][13 := Xor(v0[13], (t / m) % m)];
    if last then v1[14 := m - 1 - v1[14] % m] else v1
  }

  /** InitWork written with the modulus and the state named, for a caller that knows the variant. */
  lemma InitWorkAt(p: Variant, h: seq<nat>, t: nat, last: bool)
    requires Supported(p) && |h| == 8
    ensures
      var m, v0 := p.modulus, h + p.iv;
      var v1 := v0[12 := Xor(v0[12], t % m)][13 := Xor(v0[13], (t / m) % m)];
      InitWork(p, h, t, last) == if last then v1[14 := m - 1 - v1[14] % m] else v1
  {
  }

  /** The closing step of F: h[i] xor v[i] xor v[i + 8]. */
  function Fold(h: seq<nat>, v: seq<nat>): (r: seq<nat>)
    requires |h| == 8 && |v| == 16
    ensures |r| == 8
  {
    seq(8, i requires 0 <= i < 8 => Xor(Xor(h[i], v[i]), v[i + 8]))
  }

  /** The compression function F (section 3.2 of RFC 7693). */
  function F(p: Variant, h: seq<nat>, m: seq<nat>, t: nat, last: bool): (r: seq<nat>)
    requires Supported(p) && |h| == 8 && |m| == 16
    ensures |r| == 8
  {
    Fold(h, Rounds(p, InitWork(p, h, t, last), m, p.rounds))
  }

  /** The first k little-endian words of n bytes each in s. */
  function Words(s: seq<Byte>, n: nat, k: nat): (r: seq<nat>)
    requires n * k <= |s|
    ensures |r| == k
  {
    if k == 0 then [] else Words(s, n, k - 1) + [LittleEndian(s[n * (k - 1)..n * k])]
  }

  /** Word i of Words is the little-endian value of bytes n*i..n*i+n-1. */
  lemma {:induction false} WordsAt(s: seq<Byte>, n: nat, k: nat, i: nat)
    requires n * k <= |s| && i < k
    ensures n * i + n <= |s| && Words(s, n, k)[i] == LittleEndian(s[n * i..n * i + n])
  {
    MulLe(i + 1, k, n);
    if i < k - 1 {
      WordsAt(s, n, k - 1, i);
    }
  }

  /** The sixteen little-endian message words of a block (section 2.4 of RFC 7693). */
  function MessageWords(p: Variant, block: seq<Byte>): (m: seq<nat>)
    requires Supported(p) && |block| == p.blockBytes
    ensures |m| == 16
  {
    Words(block, WordBytes(p), 16)
  }

  /** F applied to a block of bytes. */
  function Compress(p: Variant, h: seq<nat>, block: seq<Byte>, t: nat, last: bool): (r: seq<nat>)
    requires Supported(p) && |h| == 8 && |block| == p.blockBytes
    ensures |r| == 8
  {
    F(p, h, MessageWords(p, block), t, last)
  }

  /** The n least significant bytes of x, least significant first. */
  function WordToBytes(x: nat, n: nat): (r: seq<Byte>)
    ensures |r| == n
    decreases n, x
  {
    if n == 0 then [] else LowByte(x); [Low(x, 8)] + WordToBytes(Ushr(x, 8), n - 1)
  }

  /** Byte k of the serialisation is bits 8k..8k+7 of x. */
  lemma {:induction false} WordToBytesAt(x: nat, n: nat, k: nat)
    requires k < n
    ensures WordToBytes(x, n)[k] == Low(Ushr(x, 8 * k), 8)
    decreases k
  {
    if k > 0 {
      WordToBytesAt(Ushr(x, 8), n - 1, k - 1);
      UshrUshr(x, 8, 8 * (k - 1));
    }
  }

  /** The first byte of lo + hi * 2^(8n), n > 0, is the first byte of lo; the rest is the shifted value one byte shorter. */
  lemma WordToBytesStep(lo: nat, hi: nat, n: nat, m: nat)
    requires 0 < n
    ensures WordToBytes(lo + Shl(hi, 8 * n), n + m)
         == [Low(lo, 8)] + WordToBytes(Ushr(lo, 8) + Shl(hi, 8 * (n - 1)), n - 1 + m)
  {
    SplitAt(lo, hi, 8 * n, 8);
    assert 8 * n - 8 == 8 * (n - 1);
  }

  /** Serialising lo + hi * 2^(8n), where lo has n bytes, is serialising lo and then hi. */
  lemma {:induction false} WordToBytesSplit(lo: nat, hi: nat, n: nat, m: nat)
    requires lo < Pow2(8 * n)
    ensures WordToBytes(lo + Shl(hi, 8 * n), n + m) == WordToBytes(lo, n) + WordToBytes(hi, m)
    decreases n
  {
    if n == 0 {
      assert lo == 0 && Shl(hi, 0) == hi;
      assert [] + WordToBytes(hi, m) == WordToBytes(hi, m);
    } else {
      var lo', k := Ushr(lo, 8), n - 1;
      UshrBound(lo, 8, 8 * n);
      assert 8 * n - 8 == 8 * k;
      WordToBytesSplit(lo', hi, k, m);
      WordToBytesCons(lo, hi, n, m, WordToBytes(lo', k), WordToBytes(hi, m));
    }
  }

  /** The inductive step of WordToBytesSplit: the first byte of lo put in front of the split of the rest. */
  lemma WordToBytesCons(lo: nat, hi: nat, n: nat, m: nat, A: seq<Byte>, B: seq<Byte>)
    requires 0 < n && A == WordToBytes(Ushr(lo, 8), n - 1) && B == WordToBytes(hi, m)
    requires WordToBytes(Ushr(lo, 8) + Shl(hi, 8 * (n - 1)), n - 1 + m) == A + B
    ensures WordToBytes(lo + Shl(hi, 8 * n), n + m) == WordToBytes(lo, n) + B
  {
    WordToBytesStep(lo, hi, n, m);
    assert WordToBytes(lo, n) == [Low(lo, 8)] + A;
    assert [Low(lo, 8)] + (A + B) == ([Low(lo, 8)] + A) + B;
  }

  /** The state serialised little-endian, n bytes per word. */
  function StateBytes(h: seq<nat>, n: nat): (r: seq<Byte>)
    ensures |r| == n * |h|
  {
    if |h| == 0 then [] else WordToBytes(h[0], n) + StateBytes(h[1..], n)
  }

  /** Byte i of a state serialised four bytes per word. */
  lemma {:induction false} StateBytes4At(h: seq<nat>, i: nat)
    requires i < 4 * |h|
    ensures StateBytes(h, 4)[i] == Low(Ushr(h[i / 4], 8 * (i % 4)), 8)
  {
    if i < 4 {
      WordToBytesAt(h[0], 4, i);
    } else {
      StateBytes4At(h[1..], i - 4);
      assert (i - 4) / 4 == i / 4 - 1 && (i - 4) % 4 == i % 4;
    }
  }

  /** The digest: the first nn bytes of the serialised state. */
  function Output(p: Variant, h: seq<nat>, nn: nat): (r: seq<Byte>)
    requires nn <= WordBytes(p) * |h|
    ensures |r| == nn
  {
    StateBytes(h, WordBytes(p))[..nn]
  }

  /**
   * The parameter block (section 2.5 of RFC 7693 and the BLAKE2 paper):
   * digest length, key length, fanout 1 and depth 1, zeros, then salt and
   * personalization, eight words in all.
   */
  function ParameterBlock(p: Variant, nn: Byte, kk: Byte, salt: seq<Byte>, personal: seq<Byte>): (r: seq<Byte>)
    requires Supported(p) && |salt| == 2 * WordBytes(p) && |personal| == 2 * WordBytes(p)
    ensures |r| == 8 * WordBytes(p)
  {
    [nn, kk, 1, 1] + Stream.Zeros(4 * WordBytes(p) - 4) + salt + personal
  }

  /** The initial chained state: the IV xored with the words of the parameter block. */
  function InitialState(p: Variant, P: seq<Byte>): (h: seq<nat>)
    requires Supported(p) && |P| == 8 * WordBytes(p)
    ensures |h| == 8
  {
    var P := Words(P, WordBytes(p), 8);
    seq(8, i requires 0 <= i < 8 => Xor(p.iv[i], P[i]))
  }

  /** Compress as a total function for the stream layer: a state or block of the wrong size is passed through. */
  function Compressor(p: Variant): Stream.Compressor
    requires Supported(p)
  {
    (h: seq<nat>, block: seq<Byte>, t: nat, last: bool) =>
      if |h| == 8 && |block| == p.blockBytes then Compress(p, h, block, t, last) else h
  }

  /** Finishing an engine applies F, as the last block, to the buffered bytes zero-padded to a whole block. */
  lemma FinishCompress(p: Variant, s: Stream.Engine, block: seq<Byte>, t: nat, h: seq<nat>)
    requires Supported(p) && Stream.WellFormed(p.blockBytes, s) && |s.h| == 8
    requires block == s.b[..s.c] + Stream.Zeros(p.blockBytes - s.c) && t == s.t + s.c
    requires h == Compress(p, s.h, block, t, true)
    ensures h == Stream.Finish(p.blockBytes, Compressor(p), s)
  {
    Stream.FinishApply(p.blockBytes, Compressor(p), s);
    CompressorApply(p, s.h, block, t, true);
  }

  /** The bytes read out of a finished engine that stands for M are the digest of M. */
  lemma DigestOfFinish(p: Variant, E: Stream.Engine, h0: seq<nat>, M: seq<Byte>, H: seq<nat>, nn: nat, out: seq<Byte>)
    requires Supported(p) && |h0| == 8 && |H| == 8 && nn <= 8 * WordBytes(p)
    requires Stream.Represents(p.blockBytes, Compressor(p), E, h0, M)
    requires H == Stream.Finish(p.blockBytes, Compressor(p), E) && out == Output(p, H, nn)
    ensures out == Digest(p, h0, M, nn)
  {
    Stream.FinishIsReference(p.blockBytes, Compressor(p), E, h0, M);
  }

  /** On a state and a block of the right sizes the stream layer's compressor is F. */
  lemma CompressorApply(p: Variant, h: seq<nat>, block: seq<Byte>, t: nat, last: bool)
    requires Supported(p) && |h| == 8 && |block| == p.blockBytes
    ensures Compressor(p)(h, block, t, last) == Compress(p, h, block, t, last)
  {
  }

  /** The compressor keeps a state of eight words at eight words. */
  lemma CompressorLength(p: Variant)
    requires Supported(p)
    ensures forall h, block, t, last :: |h| == 8 ==> |Compressor(p)(h, block, t, last)| == 8
  {
    forall h, block, t, last | |h| == 8
      ensures |Compressor(p)(h, block, t, last)| == 8
    {
    }
  }

  /** The nn-byte digest of the stream M from initial state h0 (section 3.3 of RFC 7693). */
  function Digest(p: Variant, h0: seq<nat>, M: seq<Byte>, nn: nat): (r: seq<Byte>)
    requires Supported(p) && |h0| == 8 && nn <= 8 * WordBytes(p)
    ensures |r| == nn
  {
    CompressorLength(p);
    Stream.ReferenceLength(p.blockBytes, Compressor(p), h0, M, 0, 8);
    Output(p, Stream.Reference(p.blockBytes, Compressor(p), h0, M, 0), nn)
  }
}
