/**
 * BLAKE2b keeps each 64-bit word of its state as a (low, high) pair of 32-bit
 * words. This module proves that the pair operations of the engine — the
 * manual carry of `ADD64AA`/`ADD64AC`, the half-word xors, the closed-form
 * half-word rotations and the bitwise not — compute the 64-bit operations of
 * RFC 7693 on the joined value.
 */
module Lanes {
  import opened Bits
  import opened Common
  import opened Blake2

  lemma JoinShl(lo: nat, hi: nat)
    ensures Join(lo, hi) == lo + Shl(hi, 32)
  {
    ShlW32(hi);
  }

  /** The low-word sum with a carry into the high-word sum, both stored mod 2^32, is the 64-bit sum. */
  lemma AddPair(la: Word, ha: Word, lb: Word, hb: Word)
    ensures var o0 := la + lb;
            var o1 := ha + hb + (if o0 >= W32 then 1 else 0);
            Join(o0 % W32, o1 % W32) == (Join(la, ha) + Join(lb, hb)) % W64
  {
  }

  /** Xoring the halves separately xors the 64-bit values. */
  lemma XorPair(x0: nat, x1: nat, y0: nat, y1: nat)
    requires x0 < W32 && y0 < W32
    ensures Join(Xor(x0, y0), Xor(x1, y1)) == Xor(Join(x0, x1), Join(y0, y1))
  {
    calc {
      Xor(Join(x0, x1), Join(y0, y1));
    == { JoinShl(x0, x1); JoinShl(y0, y1); }
      Xor(x0 + Shl(x1, 32), y0 + Shl(y1, 32));
    == { W32Pow(); XorSplit(x0, x1, y0, y1, 32); }
      Xor(x0, y0) + Shl(Xor(x1, y1), 32);
    == { JoinShl(Xor(x0, y0), Xor(x1, y1)); }
      Join(Xor(x0, y0), Xor(x1, y1));
    }
  }

  /** Bitwise not of both halves is the 64-bit bitwise not. */
  lemma NotPair(x0: Word, x1: Word)
    ensures Join(Not32(x0), Not32(x1)) == W64 - 1 - Join(x0, x1)
  {
  }

  /** Swapping the halves rotates the 64-bit value right by 32. */
  lemma RotPair32(x0: Word, x1: Word)
    ensures Join(x1, x0) == RotR(Join(x0, x1), 32, 64)
  {
    Pow2Table();
    JoinShl(x0, x1);
    JoinShl(x1, x0);
    SplitAt(x0, x1, 32, 32);
    LowSmall(x0, 32);
  }

  /** One half of a closed-form rotation, `(x >>> n) ^ (y << (32 - n))` for 0 < n < 32: the bits do not overlap. */
  lemma HalfRot(x: Word, y: Word, n: nat)
    requires 0 < n < 32
    ensures Xor(Ushr(x, n), Shl32(y, 32 - n)) == Ushr(x, n) + Shl(Low(y, n), 32 - n)
  {
    var k := 32 - n;
    calc {
      Xor(Ushr(x, n), Shl32(y, k));
    == { LowShl(y, k, 32); assert 32 - k == n; }
      Xor(Ushr(x, n), Shl(Low(y, n), k));
    == { W32Pow(); UshrBound(x, n, 32); XorDisjoint(Ushr(x, n), Low(y, n), k); }
      Ushr(x, n) + Shl(Low(y, n), k);
    }
  }

  /** x == Low(x, n) + Shl(Ushr(x, n), n), shifted left by 32 - n. */
  lemma SplitShifted(x: nat, n: nat)
    requires n <= 32
    ensures Shl(x, 32 - n) == Shl(Low(x, n), 32 - n) + Shl(Ushr(x, n), 32)
  {
    LowHigh(x, n);
    ShlAdd(Low(x, n), Shl(Ushr(x, n), n), 32 - n);
    ShlShl(Ushr(x, n), n, 32 - n);
  }

  /** A high half made of two bit fields, moved up by 32 bits. */
  lemma ShlHigh(a: nat, b: nat, k: nat)
    ensures Shl(a + Shl(b, k), 32) == Shl(a, 32) + Shl(b, k + 32)
  {
    ShlAdd(a, Shl(b, k), 32);
    ShlShl(b, k, 32);
  }

  /** The pair rotation of RotPair, as a sum of four disjoint bit fields. */
  lemma RotPairFields(x0: Word, x1: Word, n: nat)
    requires 0 < n < 32
    ensures Join(Xor(Ushr(x0, n), Shl32(x1, 32 - n)), Xor(Ushr(x1, n), Shl32(x0, 32 - n)))
         == Ushr(x0, n) + Shl(Low(x1, n), 32 - n) + Shl(Ushr(x1, n), 32) + Shl(Low(x0, n), 64 - n)
  {
    var k := 32 - n;
    var lo := Ushr(x0, n) + Shl(Low(x1, n), k);
    var hi := Ushr(x1, n) + Shl(Low(x0, n), k);
    calc {
      Join(Xor(Ushr(x0, n), Shl32(x1, k)), Xor(Ushr(x1, n), Shl32(x0, k)));
    == { HalfRot(x0, x1, n); HalfRot(x1, x0, n); }
      Join(lo, hi);
    == { JoinShl(lo, hi); }
      lo + Shl(hi, 32);
    == { ShlHigh(Ushr(x1, n), Low(x0, n), k); }
      lo + Shl(Ushr(x1, n), 32) + Shl(Low(x0, n), k + 32);
    }
  }

  /** The 64-bit rotation right by n < 32, as the same four bit fields of the halves. */
  lemma RotRFields(x0: Word, x1: Word, n: nat)
    requires 0 < n < 32
    ensures RotR(Join(x0, x1), n, 64)
         == Ushr(x0, n) + Shl(Low(x1, n), 32 - n) + Shl(Ushr(x1, n), 32) + Shl(Low(x0, n), 64 - n)
  {
    JoinShl(x0, x1);
    SplitAt(x0, x1, 32, n);
    SplitShifted(x1, n);
  }

  /**
   * `(x0 >>> n) ^ (x1 << (32 - n))` and `(x1 >>> n) ^ (x0 << (32 - n))`, for
   * 0 < n < 32, rotate the 64-bit value right by n.
   */
  lemma RotPair(x0: Word, x1: Word, n: nat)
    requires 0 < n < 32
    ensures Join(Xor(Ushr(x0, n), Shl32(x1, 32 - n)), Xor(Ushr(x1, n), Shl32(x0, 32 - n))) == RotR(Join(x0, x1), n, 64)
  {
    RotPairFields(x0, x1, n);
    RotRFields(x0, x1, n);
  }

  /** Shifting the joined value right by 32 + k shifts the high half right by k. */
  lemma UshrHigh(x0: Word, x1: Word, k: nat)
    ensures Ushr(Join(x0, x1), 32 + k) == Ushr(x1, k)
  {
    var X := Join(x0, x1);
    JoinShl(x0, x1);
    W32Pow();
    SplitAt(x0, x1, 32, 32);
    LowSmall(x0, 32);
    assert Ushr(X, 32) == x1;
    UshrUshr(X, 32, k);
  }

  /** The low 32 + k bits of the joined value: the low half and the low k bits of the high half. */
  lemma LowJoin(x0: Word, x1: Word, k: nat)
    ensures Low(Join(x0, x1), 32 + k) == x0 + Shl(Low(x1, k), 32)
  {
    JoinShl(x0, x1);
    W32Pow();
    LowAbove(x0, x1, 32, 32 + k);
  }

  /** The low 32 + k bits of the joined value, shifted left by 32 - k, as bit fields of the halves. */
  lemma LowHighFields(x0: Word, x1: Word, k: nat)
    requires k < 32
    ensures Shl(Low(Join(x0, x1), 32 + k), 32 - k)
         == Shl(Low(x0, k), 32 - k) + Shl(Ushr(x0, k), 32) + Shl(Low(x1, k), 64 - k)
  {
    LowJoin(x0, x1, k);
    var y := Low(x1, k);
    ShlAdd(x0, Shl(y, 32), 32 - k);
    ShlShl(y, 32, 32 - k);
    SplitShifted(x0, k);
  }

  /** The 64-bit rotation right by 32 + k, for k < 32, as bit fields of the halves. */
  lemma RotRHighFields(x0: Word, x1: Word, k: nat)
    requires k < 32
    ensures RotR(Join(x0, x1), 32 + k, 64)
         == Ushr(x1, k) + Shl(Low(x0, k), 32 - k) + Shl(Ushr(x0, k), 32) + Shl(Low(x1, k), 64 - k)
  {
    UshrHigh(x0, x1, k);
    LowHighFields(x0, x1, k);
    assert 64 - (32 + k) == 32 - k;
  }

  /** `(x1 >>> 31) ^ (x0 << 1)` and `(x0 >>> 31) ^ (x1 << 1)` rotate the 64-bit value right by 63. */
  lemma RotPair63(x0: Word, x1: Word)
    ensures Join(Xor(Ushr(x1, 31), Shl32(x0, 1)), Xor(Ushr(x0, 31), Shl32(x1, 1))) == RotR(Join(x0, x1), 63, 64)
  {
    RotPairFields(x1, x0, 31);
    RotRHighFields(x0, x1, 31);
  }

  /** Pairing words into lanes commutes with concatenation. */
  lemma LanesAppend(s: seq<nat>, u: seq<nat>)
    requires |s| % 2 == 0 && |u| % 2 == 0
    ensures Lanes(s + u) == Lanes(s) + Lanes(u)
  {
    var L := Lanes(s + u);
    forall k | 0 <= k < |L|
      ensures L[k] == (Lanes(s) + Lanes(u))[k]
    {
      if k >= |s| / 2 {
        assert (s + u)[2 * k] == u[2 * (k - |s| / 2)];
      }
    }
  }

  /** Lane i / 2, for an even word index i, joins words i and i + 1. */
  lemma LaneAt(s: seq<nat>, i: nat)
    requires |s| % 2 == 0 && i % 2 == 0 && i + 1 < |s|
    ensures Lanes(s)[i / 2] == Join(s[i], s[i + 1])
  {
    assert 2 * (i / 2) == i;
  }

  /** Writing both words of pair i updates lane i / 2 to their join. */
  lemma LanesUpdate(s: seq<nat>, i: nat, lo: nat, hi: nat)
    requires |s| % 2 == 0 && i % 2 == 0 && i + 1 < |s|
    ensures Lanes(s[i := lo][i + 1 := hi]) == Lanes(s)[i / 2 := Join(lo, hi)]
  {
  }

  /** A 64-bit lane serialised as eight bytes is its low word's four bytes followed by its high word's. */
  lemma JoinBytes(lo: nat, hi: nat)
    requires lo < W32
    ensures WordToBytes(Join(lo, hi), 8) == WordToBytes(lo, 4) + WordToBytes(hi, 4)
  {
    JoinShl(lo, hi);
    W32Pow();
    WordToBytesSplit(lo, hi, 4, 4);
  }

  lemma ConcatAssoc<T>(a: seq<T>, b: seq<T>, c: seq<T>)
    ensures (a + b) + c == a + (b + c)
  {
  }

  /** The first lane serialised, then the remaining lanes. */
  lemma LanesBytesHead(s: seq<Word>)
    requires |s| % 2 == 0 && |s| > 0
    ensures StateBytes(Lanes(s), 8) == WordToBytes(Join(s[0], s[1]), 8) + StateBytes(Lanes(s[2..]), 8)
  {
    var L := Lanes(s);
    assert L[1..] == Lanes(s[2..]);
  }

  /** The first two words serialised, then the remaining words. */
  lemma WordsBytesHead(s: seq<nat>, n: nat)
    requires |s| >= 2
    ensures StateBytes(s, n) == (WordToBytes(s[0], n) + WordToBytes(s[1], n)) + StateBytes(s[2..], n)
  {
    assert s[1..][1..] == s[2..];
    ConcatAssoc(WordToBytes(s[0], n), WordToBytes(s[1], n), StateBytes(s[2..], n));
  }

  /** Serialising the lanes eight bytes each is serialising the 32-bit words four bytes each. */
  lemma {:induction false} LanesBytes(s: seq<Word>)
    requires |s| % 2 == 0
    ensures StateBytes(Lanes(s), 8) == StateBytes(s, 4)
    decreases |s|
  {
    if |s| > 0 {
      LanesBytesHead(s);
      LanesBytes(s[2..]);
      JoinBytes(s[0], s[1]);
      WordsBytesHead(s, 4);
    } else {
      assert Lanes(s) == [];
    }
  }
  /** A joined pair of words is a 64-bit value. */
  lemma JoinBound(lo: Word, hi: Word)
    ensures Join(lo, hi) < W64
  {
  }

  /** The counter words `t` and `t / 2^32`, each stored mod 2^32, join to t mod 2^64. */
  lemma CounterPair(t: nat)
    ensures Join(t % W32, (t / W32) % W32) == t % W64
  {
    var q := t / W32;
    assert t == q * W32 + t % W32;
    assert q == (q / W32) * W32 + q % W32;
    DivModUnique(t, q / W32, t % W32 + W32 * (q % W32), W64);
  }

  /** Eight little-endian bytes are the joined values of their two four-byte halves. */
  lemma LittleEndianJoin(s: seq<Byte>)
    requires |s| == 8
    ensures LittleEndian(s) == Join(LittleEndian(s[..4]), LittleEndian(s[4..]))
  {
    LittleEndian4(s[..4]);
    assert s[1..][1..] == s[2..] && s[2..][1..] == s[3..] && s[3..][1..] == s[4..];
    assert LittleEndian(s[3..]) == s[3] as int + 0x100 * LittleEndian(s[4..]);
    assert LittleEndian(s[2..]) == s[2] as int + 0x100 * LittleEndian(s[3..]);
    assert LittleEndian(s[1..]) == s[1] as int + 0x100 * LittleEndian(s[2..]);
  }

  /** Reading 2k little-endian 32-bit words and joining them in pairs reads k little-endian 64-bit words. */
  lemma WordsLanes(s: seq<Byte>, k: nat)
    requires 8 * k <= |s|
    ensures Lanes(Words(s, 4, 2 * k)) == Words(s, 8, k)
  {
    var L, W := Lanes(Words(s, 4, 2 * k)), Words(s, 8, k);
    forall j | 0 <= j < k
      ensures L[j] == W[j]
    {
      WordsAt(s, 4, 2 * k, 2 * j);
      WordsAt(s, 4, 2 * k, 2 * j + 1);
      WordsAt(s, 8, k, j);
      var u := s[8 * j..8 * j + 8];
      assert u[..4] == s[8 * j..8 * j + 4] && u[4..] == s[8 * j + 4..8 * j + 8];
      LittleEndianJoin(u);
    }
  }
  /** One lane of the fold: xoring the halves twice xors the joined values twice. */
  lemma FoldPair(h0: Word, h1: Word, a0: Word, a1: Word, b0: Word, b1: Word)
    ensures Join(Xor(Xor(h0, a0), b0), Xor(Xor(h1, a1), b1)) == Xor(Xor(Join(h0, h1), Join(a0, a1)), Join(b0, b1))
  {
    W32Pow();
    XorBound(h0, a0, 32);
    XorPair(h0, h1, a0, a1);
    XorPair(Xor(h0, a0), Xor(h1, a1), b0, b1);
  }

  /** Lane j of a fold done word by word. */
  lemma FoldLane(H: seq<Word>, V: seq<Word>, h: seq<Word>, j: nat)
    requires |H| == 16 && |V| == 32 && |h| == 16 && j < 8
    requires h[2 * j] == Xor(Xor(H[2 * j], V[2 * j]), V[2 * j + 16])
    requires h[2 * j + 1] == Xor(Xor(H[2 * j + 1], V[2 * j + 1]), V[2 * j + 17])
    ensures Lanes(h)[j] == Fold(Lanes(H), Lanes(V))[j]
  {
    FoldPair(H[2 * j], H[2 * j + 1], V[2 * j], V[2 * j + 1], V[2 * j + 16], V[2 * j + 17]);
  }

  /** Folding word by word, `h[i] ^ v[i] ^ v[i + 16]`, folds the lanes: F's closing step on 64-bit words. */
  lemma FoldPairs(H: seq<Word>, V: seq<Word>, h: seq<Word>)
    requires |H| == 16 && |V| == 32 && |h| == 16
    requires forall k {:trigger h[k]} | 0 <= k < 16 :: h[k] == Xor(Xor(H[k], V[k]), V[k + 16])
    ensures Lanes(h) == Fold(Lanes(H), Lanes(V))
  {
    forall j | 0 <= j < 8
      ensures Lanes(h)[j] == Fold(Lanes(H), Lanes(V))[j]
    {
      FoldLane(H, V, h, j);
    }
  }
  /** Lane j of a word-by-word xor is the xor of lane j. */
  lemma XorLane(A: seq<Word>, B: seq<nat>, X: seq<nat>, j: nat)
    requires |A| == 16 && |B| == 16 && |X| == 16 && j < 8 && B[2 * j] < W32
    requires X[2 * j] == Xor(A[2 * j], B[2 * j]) && X[2 * j + 1] == Xor(A[2 * j + 1], B[2 * j + 1])
    ensures Lanes(X)[j] == Xor(Lanes(A)[j], Lanes(B)[j])
  {
    XorPair(A[2 * j], A[2 * j + 1], B[2 * j], B[2 * j + 1]);
  }
}
