/**
 * The constants and helpers shared by both engines: the initialization
 * vector, the message schedule SIGMA, the little-endian word reader and the
 * input normaliser, plus the hexadecimal rendering both engines use for
 * `hashHex`.
 */
module Common {
  import opened Bits
  import opened Wrappers

  type Byte = x: int | 0 <= x < 0x100
  type Word = x: int | 0 <= x < 0x1_0000_0000
  type Index16 = x: int | 0 <= x < 16

  /** Number.MAX_SAFE_INTEGER + 1: the byte counter is exact below it. */
  const MaxCounter: nat := 0x20_0000_0000_0000

  /** Why a constructor throws a TypeError, or `update` an Error. */
  datatype Error = InvalidLength | InvalidKey | InvalidSalt | InvalidPersonal | Frozen

  /** JavaScript `x ^ y` on two 32-bit words, as its unsigned residue. */
  function Xor32(x: Word, y: Word): Word
  {
    W32Pow();
    XorBound(x, y, 32);
    Xor(x, y)
  }

  /**
   * The initialization vector as sixteen 32-bit words: the eight 64-bit
   * BLAKE2b constants, each split into its low word followed by its high word.
   */
  const IV: seq<Word> := [
    0xF3BCC908, 0x6A09E667, 0x84CAA73B, 0xBB67AE85,
    0xFE94F82B, 0x3C6EF372, 0x5F1D36F1, 0xA54FF53A,
    0xADE682D1, 0x510E527F, 0x2B3E6C1F, 0x9B05688C,
    0xFB41BD6B, 0x1F83D9AB, 0x137E2179, 0x5BE0CD19
  ]

  /** The BLAKE2b IV of section 2.6 of RFC 7693. */
  const Blake2bIV: seq<nat> := [
    0x6A09E667F3BCC908, 0xBB67AE8584CAA73B, 0x3C6EF372FE94F82B, 0xA54FF53A5F1D36F1,
    0x510E527FADE682D1, 0x9B05688C2B3E6C1F, 0x1F83D9ABFB41BD6B, 0x5BE0CD19137E2179
  ]

  /** The BLAKE2s IV of section 2.6 of RFC 7693. */
  const Blake2sIV: seq<nat> := [
    0x6A09E667, 0xBB67AE85, 0x3C6EF372, 0xA54FF53A,
    0x510E527F, 0x9B05688C, 0x1F83D9AB, 0x5BE0CD19
  ]

  /** The 64-bit value held by a (low, high) pair of 32-bit words. */
  function Join(lo: nat, hi: nat): nat
  {
    lo + W32 * hi
  }

  /** Adjacent word pairs of s, low word first, joined into 64-bit lanes. */
  function Lanes(s: seq<nat>): (r: seq<nat>)
    requires |s| % 2 == 0
    ensures |r| == |s| / 2
    ensures forall k | 0 <= k < |r| :: r[k] == Join(s[2 * k], s[2 * k + 1])
  {
    seq(|s| / 2, k requires 0 <= k < |s| / 2 => Join(s[2 * k], s[2 * k + 1]))
  }

  /** The IV words hold the BLAKE2b IV as (low, high) pairs. */
  lemma IVPairs()
    ensures |IV| == 16
    ensures Lanes(IV) == Blake2bIV
  {
  }

  /** The odd-indexed IV words are the BLAKE2s IV. */
  lemma IVOddWords()
    ensures forall i | 0 <= i < 8 :: IV[2 * i + 1] == Blake2sIV[i]
  {
  }

  /** Row r of SIGMA (section 2.7 of RFC 7693). */
  function SigmaRow(r: nat): (row: seq<Index16>)
    requires r < 10
    ensures |row| == 16
  {
    match r
    case 0 => [0, 1, 2, 3, 4, 5, 6, 7, 8, 9, 10, 11, 12, 13, 14, 15]
    case 1 => [14, 10, 4, 8, 9, 15, 13, 6, 1, 12, 0, 2, 11, 7, 5, 3]
    case 2 => [11, 8, 12, 0, 5, 2, 15, 13, 10, 14, 3, 6, 7, 1, 9, 4]
    case 3 => [7, 9, 3, 1, 13, 12, 11, 14, 2, 6, 5, 10, 4, 0, 15, 8]
    case 4 => [9, 0, 5, 7, 2, 4, 10, 15, 14, 1, 11, 12, 6, 8, 3, 13]
    case 5 => [2, 12, 6, 10, 0, 11, 8, 3, 4, 13, 7, 5, 15, 14, 1, 9]
    case 6 => [12, 5, 1, 15, 14, 13, 4, 10, 0, 7, 6, 3, 9, 2, 8, 11]
    case 7 => [13, 11, 7, 14, 12, 1, 3, 9, 5, 0, 15, 4, 8, 6, 2, 10]
    case 8 => [6, 15, 14, 9, 11, 3, 0, 8, 12, 2, 13, 7, 1, 4, 10, 5]
    case 9 => [10, 2, 8, 4, 7, 6, 1, 5, 15, 11, 9, 14, 3, 12, 13, 0]
  }

  /** The flat 160-entry table: ten rows of sixteen message-word indices. */
  const Sigma: seq<Index16> := seq(160, i requires 0 <= i < 160 => SigmaRow(i / 16)[i % 16])

  /** Entry 16r + j of the flat table is entry j of row r; every entry indexes a 16-word message. */
  lemma SigmaEntry(r: nat, j: nat)
    requires r < 10 && j < 16
    ensures |Sigma| == 160 && Sigma[16 * r + j] == SigmaRow(r)[j] < 16
  {
    var i := 16 * r + j;
    assert i / 16 == r && i % 16 == j;
  }

  /** Sixteen consecutive entries of the flat table from 16r are row r. */
  lemma SigmaSlice(r: nat)
    requires r < 10
    ensures |Sigma| == 160 && Sigma[16 * r..16 * r + 16] == SigmaRow(r)
  {
    forall j | 0 <= j < 16
      ensures Sigma[16 * r..16 * r + 16][j] == SigmaRow(r)[j]
    {
      SigmaEntry(r, j);
    }
  }

  /** Each row of SIGMA is a permutation of 0..15: sixteen entries, each below 16, and every index present. */
  lemma SigmaRowPermutation(r: nat)
    requires r < 10
    ensures |SigmaRow(r)| == 16
    ensures forall j: Index16 :: j in SigmaRow(r)
  {
    match r
    case 0 => assert forall j: Index16 :: j in SigmaRow(0);
    case 1 => assert forall j: Index16 :: j in SigmaRow(1);
    case 2 => assert forall j: Index16 :: j in SigmaRow(2);
    case 3 => assert forall j: Index16 :: j in SigmaRow(3);
    case 4 => assert forall j: Index16 :: j in SigmaRow(4);
    case 5 => assert forall j: Index16 :: j in SigmaRow(5);
    case 6 => assert forall j: Index16 :: j in SigmaRow(6);
    case 7 => assert forall j: Index16 :: j in SigmaRow(7);
    case 8 => assert forall j: Index16 :: j in SigmaRow(8);
    case 9 => assert forall j: Index16 :: j in SigmaRow(9);
  }

  /** The little-endian value of a byte string (section 2.4 of RFC 7693). */
  function LittleEndian(s: seq<Byte>): nat
  {
    if |s| == 0 then 0 else s[0] as int + 0x100 * LittleEndian(s[1..])
  }

  lemma LittleEndian4(s: seq<Byte>)
    requires |s| == 4
    ensures LittleEndian(s) == s[0] as int + 0x100 * s[1] as int + 0x1_0000 * s[2] as int + 0x100_0000 * s[3] as int
  {
    assert LittleEndian(s[3..]) == s[3] as int + 0x100 * LittleEndian(s[4..]);
    assert LittleEndian(s[2..]) == s[2] as int + 0x100 * LittleEndian(s[3..]);
    assert LittleEndian(s[1..]) == s[1] as int + 0x100 * LittleEndian(s[2..]);
  }

  /** A byte shifted left by up to 24 bits stays inside the word, so JavaScript's `<<` does not truncate it. */
  lemma ShiftedByte(x: Byte, n: nat)
    requires n <= 24
    ensures Shl32(x, n) == Shl(x, n)
  {
    Pow2Table();
    Pow2Add(8, 24 - n);
    ShlBound(x, n, 32);
    LowSmall(Shl(x, n), 32);
  }

  lemma Get32Sum(b0: Byte, b1: Byte, b2: Byte, b3: Byte)
    ensures Xor(Xor(Xor(b0, Shl32(b1, 8)), Shl32(b2, 16)), Shl32(b3, 24))
         == b0 as int + 0x100 * b1 as int + 0x1_0000 * b2 as int + 0x100_0000 * b3 as int
  {
    Pow2Table();
    ShiftedByte(b1, 8);
    ShiftedByte(b2, 16);
    ShiftedByte(b3, 24);
    ShlMul(b1, 8);
    ShlMul(b2, 16);
    ShlMul(b3, 24);
    var s1: nat := b0 as int + 0x100 * b1 as int;
    var s2: nat := s1 + 0x1_0000 * b2 as int;
    XorDisjoint(b0, b1, 8);
    assert Xor(b0, Shl32(b1, 8)) == s1;
    XorDisjoint(s1, b2, 16);
    assert Xor(s1, Shl32(b2, 16)) == s2;
    XorDisjoint(s2, b3, 24);
  }

  /**
   * `get32`: the 32-bit word stored little-endian at v[i..i+4], assembled by
   * xoring the shifted bytes; the shifted bytes do not overlap, so this is
   * their sum.
   */
  function Get32(v: seq<Byte>, i: nat): (r: Word)
    requires i + 4 <= |v|
    ensures r == v[i] as int + 0x100 * v[i + 1] as int + 0x1_0000 * v[i + 2] as int + 0x100_0000 * v[i + 3] as int
    ensures r == LittleEndian(v[i..i + 4])
  {
    Get32Sum(v[i], v[i + 1], v[i + 2], v[i + 3]);
    LittleEndian4(v[i..i + 4]);
    Xor(Xor(Xor(v[i], Shl32(v[i + 1], 8)), Shl32(v[i + 2], 16)), Shl32(v[i + 3], 24))
  }

  /**
   * JavaScript `x >> n` for a word x and 0 <= n < 32: x read as a signed
   * 32-bit integer, shifted right with its sign copied in.
   */
  function Sar32(x: Word, n: nat): int
  {
    (if x < 0x8000_0000 then x else x - W32) / Pow2(n)
  }

  /** Shifting the signed reading right by a divisor P of 2^24 keeps the low byte of the unsigned quotient. */
  lemma SignedQuotientByte(x: Word, P: nat, K: nat)
    requires P > 0 && K * 0x100 * P == W32
    ensures ((if x < 0x8000_0000 then x else x - W32) / P) % 0x100 == (x / P) % 0x100
  {
    if x >= 0x8000_0000 {
      DivModUnique(x - W32, x / P - K * 0x100, x % P, P);
      DivModUnique(x / P - K * 0x100, (x / P) / 0x100 - K, (x / P) % 0x100, 0x100);
    }
  }

  /** `x >> 8k & 0xFF` for k < 4 is byte k of x: the copied sign bits stay above the low byte. */
  lemma SarByte(x: Word, k: nat)
    requires k < 4
    ensures Sar32(x, 8 * k) % 0x100 == Low(Ushr(x, 8 * k), 8)
  {
    Pow2Table();
    UshrLowDivMod(x, 8 * k);
    UshrLowDivMod(Ushr(x, 8 * k), 8);
    if k == 0 {
      SignedQuotientByte(x, 1, 0x100_0000);
    } else if k == 1 {
      SignedQuotientByte(x, 0x100, 0x1_0000);
    } else if k == 2 {
      SignedQuotientByte(x, 0x1_0000, 0x100);
    } else {
      SignedQuotientByte(x, 0x100_0000, 1);
    }
  }

  /** `normalizeInput` on a byte array: the argument itself. */
  function NormalizeInput(input: seq<Byte>): (r: seq<Byte>)
    ensures r == input
  {
    input
  }

  /**
   * The key length both engines write into the parameter block:
   * `key.length` for a supplied key, 0 without one.
   */
  function KeyLength(key: Option<seq<Byte>>): (kk: nat)
    ensures key.Some? ==> kk == |key.value|
    ensures key.None? ==> kk == 0
  {
    if key.Some? then |key.value| else 0
  }
}

/**
 * The rendering `hashHex` applies to a digest: each byte as two uppercase
 * hexadecimal digits, zero-padded on the left.
 */
module Hex {
  import opened Wrappers
  import opened Common

  predicate IsHexDigit(ch: char)
  {
    '0' <= ch <= '9' || 'A' <= ch <= 'F'
  }

  /** `n.toString(16).toUpperCase()` for a single digit n. */
  function Digit(n: nat): (ch: char)
    requires n < 16
    ensures IsHexDigit(ch)
  {
    if n < 10 then (0x30 + n) as char else (0x41 + n - 10) as char
  }

  /** The value of a hexadecimal digit, if it is one. */
  function DigitValue(ch: char): (r: Option<nat>)
    ensures r.Some? <==> IsHexDigit(ch)
    ensures r.Some? ==> r.value < 16 && Digit(r.value) == ch
  {
    if '0' <= ch <= '9' then Some(ch as int - 0x30)
    else if 'A' <= ch <= 'F' then Some(ch as int - 0x41 + 10)
    else None
  }

  /** One byte as two digits: `byte.toString(16).toUpperCase().padStart(2, "0")`. */
  function ByteHex(b: Byte): (r: string)
    ensures |r| == 2 && IsHexDigit(r[0]) && IsHexDigit(r[1])
  {
    [Digit(b / 16), Digit(b % 16)]
  }

  /** The concatenated rendering of a byte string. */
  function Encode(bytes: seq<Byte>): (r: string)
    ensures |r| == 2 * |bytes|
    ensures forall i | 0 <= i < |r| :: IsHexDigit(r[i])
  {
    if |bytes| == 0 then "" else ByteHex(bytes[0]) + Encode(bytes[1..])
  }

  /** Parses an even-length run of hexadecimal digits back into bytes. */
  function Decode(s: string): Option<seq<Byte>>
  {
    if |s| == 0 then Some([])
    else if |s| == 1 then None
    else
      match (DigitValue(s[0]), DigitValue(s[1]), Decode(s[2..]))
      case (Some(hi), Some(lo), Some(rest)) => Some([16 * hi + lo] + rest)
      case _ => None
  }

  /** Decoding undoes the rendering, so the rendering loses nothing. */
  lemma {:induction false} DecodeEncode(bytes: seq<Byte>)
    ensures Decode(Encode(bytes)) == Some(bytes)
  {
    if |bytes| > 0 {
      var b := bytes[0];
      var s := Encode(bytes);
      assert s == ByteHex(b) + Encode(bytes[1..]);
      assert s[2..] == Encode(bytes[1..]);
      DecodeEncode(bytes[1..]);
      assert DigitValue(Digit(b / 16)) == Some(b / 16);
      assert DigitValue(Digit(b % 16)) == Some(b % 16);
      assert [b] + bytes[1..] == bytes;
    }
  }
}
