/**
 * Unsigned integers as bit strings.
 *
 * Words are modelled as natural numbers; bitwise exclusive or is defined
 * recursively on the binary expansion, and the JavaScript operators used by
 * the engines (`<<`, `>>>`, `~` on 32-bit values) are written out as integer
 * arithmetic on the unsigned residue.
 */
module Bits {
  /** 2^n. */
  function Pow2(n: nat): (r: nat)
    ensures r >= 1
  {
    if n == 0 then 1 else 2 * Pow2(n - 1)
  }

  /** Modulus of a 32-bit word. */
  const W32: nat := 0x1_0000_0000

  /** Modulus of a 64-bit word. */
  const W64: nat := 0x1_0000_0000_0000_0000

  /** Left shift without truncation, x * 2^n. */
  function Shl(x: nat, n: nat): nat
  {
    if n == 0 then x else 2 * Shl(x, n - 1)
  }

  /** Bit i of x. */
  function Bit(x: nat, i: nat): nat
  {
    if i == 0 then x % 2 else Bit(x / 2, i - 1)
  }

  /** Bitwise exclusive or of two naturals. */
  function Xor(x: nat, y: nat): nat
    decreases x + y
  {
    if x == 0 && y == 0 then 0 else 2 * Xor(x / 2, y / 2) + (x + y) % 2
  }

  /** The quotient x / 2^n: JavaScript `x >>> n` on a 32-bit value. */
  function Ushr(x: nat, n: nat): nat
  {
    if n == 0 then x else Ushr(x / 2, n - 1)
  }

  /** The remainder x mod 2^n: the low n bits of x. */
  function Low(x: nat, n: nat): nat
  {
    if n == 0 then 0 else 2 * Low(x / 2, n - 1) + x % 2
  }

  /** Rotation right by n of a w-bit word: the bits above n moved down, the low n bits moved to the top. */
  function RotR(x: nat, n: nat, w: nat): nat
    requires n <= w
  {
    Ushr(x, n) + Shl(Low(x, n), w - n)
  }

  /** JavaScript `x << n` on a 32-bit value, as its unsigned residue. */
  function Shl32(x: nat, n: nat): (r: nat)
    ensures r < W32
  {
    LowHigh(Shl(x, n), 32);
    W32Pow();
    Low(Shl(x, n), 32)
  }

  /** JavaScript `~x` on a 32-bit value, as its unsigned residue. */
  function Not32(x: nat): nat
    requires x < W32
  {
    W32 - 1 - x
  }

  lemma {:induction false} Pow2Add(a: nat, b: nat)
    ensures Pow2(a + b) == Pow2(a) * Pow2(b)
    decreases a
  {
    if a > 0 {
      Pow2Add(a - 1, b);
    }
  }

  lemma Pow2Table()
    ensures Pow2(8) == 0x100 && Pow2(16) == 0x1_0000 && Pow2(24) == 0x100_0000
    ensures Pow2(32) == W32 && Pow2(64) == W64
  {
    assert Pow2(8) == 0x100;
    Pow2Add(8, 8);
    Pow2Add(16, 8);
    Pow2Add(16, 16);
    Pow2Add(32, 32);
  }

  lemma W32Pow()
    ensures Pow2(32) == W32
  {
    Pow2Table();
  }

  /** The low eight bits of x form a byte. */
  lemma LowByte(x: nat)
    ensures Low(x, 8) < 0x100
  {
    LowHigh(x, 8);
    Pow2Table();
  }

  lemma {:induction false} ShlMul(x: nat, n: nat)
    ensures Shl(x, n) == x * Pow2(n)
  {
    if n > 0 {
      ShlMul(x, n - 1);
      var p := Pow2(n - 1);
      assert Pow2(n) == 2 * p;
      assert x * (2 * p) == 2 * (x * p);
    }
  }

  lemma XorStep(x: nat, y: nat)
    ensures Xor(x, y) == 2 * Xor(x / 2, y / 2) + (x + y) % 2
  {
    if x == 0 && y == 0 {
      assert Xor(0, 0) == 0;
    }
  }

  /** Xor is bitwise: each bit of the result is the sum of the operands' bits mod 2. */
  lemma {:induction false} XorBit(x: nat, y: nat, i: nat)
    ensures Bit(Xor(x, y), i) == (Bit(x, i) + Bit(y, i)) % 2
    decreases i
  {
    var z, q := Xor(x, y), Xor(x / 2, y / 2);
    XorStep(x, y);
    HalfEven((x + y) % 2, q);
    assert z / 2 == q && z % 2 == (x + y) % 2;
    if i == 0 {
      assert Bit(z, 0) == (x + y) % 2;
      assert Bit(x, 0) + Bit(y, 0) == x % 2 + y % 2;
    } else {
      assert Bit(z, i) == Bit(q, i - 1);
      XorBit(x / 2, y / 2, i - 1);
      assert Bit(x, i) == Bit(x / 2, i - 1) && Bit(y, i) == Bit(y / 2, i - 1);
    }
  }

  lemma {:induction false} XorComm(x: nat, y: nat)
    ensures Xor(x, y) == Xor(y, x)
    decreases x + y
  {
    if !(x == 0 && y == 0) {
      XorComm(x / 2, y / 2);
    }
  }

  lemma ParityAssoc(x: nat, y: nat, z: nat)
    ensures ((x + y) % 2 + z) % 2 == (x + (y + z) % 2) % 2
  {
  }

  /** Naturals with the same bits are equal. */
  lemma {:induction false} BitExt(x: nat, y: nat)
    requires forall i: nat :: Bit(x, i) == Bit(y, i)
    ensures x == y
    decreases x + y
  {
    if x != 0 || y != 0 {
      assert Bit(x, 0) == Bit(y, 0);
      forall i: nat
        ensures Bit(x / 2, i) == Bit(y / 2, i)
      {
        assert Bit(x, i + 1) == Bit(y, i + 1);
      }
      BitExt(x / 2, y / 2);
    }
  }

  /** One bit of a three-way xor, either way round. */
  lemma XorAssocBit(x: nat, y: nat, z: nat, i: nat)
    ensures Bit(Xor(Xor(x, y), z), i) == Bit(Xor(x, Xor(y, z)), i)
  {
    var xy, yz := Xor(x, y), Xor(y, z);
    var a, b, c := Bit(x, i), Bit(y, i), Bit(z, i);
    XorBit(xy, z, i);
    XorBit(x, y, i);
    assert Bit(Xor(xy, z), i) == ((a + b) % 2 + c) % 2;
    XorBit(x, yz, i);
    XorBit(y, z, i);
    assert Bit(Xor(x, yz), i) == (a + (b + c) % 2) % 2;
    ParityAssoc(a, b, c);
  }

  lemma XorAssoc(x: nat, y: nat, z: nat)
    ensures Xor(Xor(x, y), z) == Xor(x, Xor(y, z))
  {
    forall i: nat
      ensures Bit(Xor(Xor(x, y), z), i) == Bit(Xor(x, Xor(y, z)), i)
    {
      XorAssocBit(x, y, z, i);
    }
    BitExt(Xor(Xor(x, y), z), Xor(x, Xor(y, z)));
  }

  lemma {:induction false} XorZeroLeft(y: nat)
    ensures Xor(0, y) == y
    decreases y
  {
    if y != 0 {
      XorZeroLeft(y / 2);
    }
  }

  lemma {:induction false} XorZeroRight(x: nat)
    ensures Xor(x, 0) == x
    decreases x
  {
    if x != 0 {
      XorZeroRight(x / 2);
    }
  }

  /** Xor of two n-bit values is an n-bit value. */
  lemma {:induction false} XorBound(x: nat, y: nat, n: nat)
    requires x < Pow2(n) && y < Pow2(n)
    ensures Xor(x, y) < Pow2(n)
    decreases n
  {
    if n > 0 && !(x == 0 && y == 0) {
      XorBound(x / 2, y / 2, n - 1);
    }
  }

  lemma HalfEven(x: nat, w: nat)
    ensures (x + 2 * w) / 2 == x / 2 + w && (x + 2 * w) % 2 == x % 2
  {
  }

  /** Xor of values whose set bits do not overlap is their sum. */
  lemma {:induction false} XorDisjoint(x: nat, y: nat, n: nat)
    requires x < Pow2(n)
    ensures Xor(x, Shl(y, n)) == x + Shl(y, n)
    decreases n
  {
    if n == 0 {
      assert x == 0;
      XorZeroLeft(y);
    } else {
      var z := Shl(y, n);
      var w := Shl(y, n - 1);
      HalfEven(0, w);
      XorDisjoint(x / 2, y, n - 1);
      XorStep(x, z);
      assert Xor(x, z) == 2 * Xor(x / 2, w) + (x + 2 * w) % 2;
      HalfEven(x, w);
    }
  }

  lemma XorSplitStep(a: nat, c: nat, bw: nat, dw: nat, qw: nat)
    requires Xor(a / 2 + bw, c / 2 + dw) == Xor(a / 2, c / 2) + qw
    ensures Xor(a + 2 * bw, c + 2 * dw) == Xor(a, c) + 2 * qw
  {
    var x, y := a + 2 * bw, c + 2 * dw;
    HalfEven(a, bw);
    HalfEven(c, dw);
    assert x / 2 == a / 2 + bw && y / 2 == c / 2 + dw;
    assert (x + y) % 2 == (a + c) % 2;
    XorStep(x, y);
    XorStep(a, c);
  }

  /** Xor acts independently on the low n bits and on the bits above them. */
  lemma {:induction false} XorSplit(a: nat, b: nat, c: nat, d: nat, n: nat)
    requires a < Pow2(n) && c < Pow2(n)
    ensures Xor(a + Shl(b, n), c + Shl(d, n)) == Xor(a, c) + Shl(Xor(b, d), n)
    decreases n
  {
    if n == 0 {
      assert a == 0 && c == 0;
      XorZeroLeft(0);
    } else {
      XorSplit(a / 2, b, c / 2, d, n - 1);
      XorSplitStep(a, c, Shl(b, n - 1), Shl(d, n - 1), Shl(Xor(b, d), n - 1));
    }
  }

  lemma {:induction false} ShlAdd(a: nat, b: nat, n: nat)
    ensures Shl(a + b, n) == Shl(a, n) + Shl(b, n)
  {
    if n > 0 {
      ShlAdd(a, b, n - 1);
    }
  }

  lemma {:induction false} ShlShl(a: nat, m: nat, n: nat)
    ensures Shl(Shl(a, m), n) == Shl(a, m + n)
    decreases n
  {
    if n > 0 {
      ShlShl(a, m, n - 1);
    }
  }

  lemma {:induction false} ShlBound(a: nat, n: nat, w: nat)
    requires n <= w && a < Pow2(w - n)
    ensures Shl(a, n) < Pow2(w)
    decreases n
  {
    if n > 0 {
      ShlBound(a, n - 1, w - 1);
    }
  }

  /** Every natural is its low n bits plus its high part shifted back into place. */
  lemma {:induction false} LowHigh(x: nat, n: nat)
    ensures x == Low(x, n) + Shl(Ushr(x, n), n)
    ensures Low(x, n) < Pow2(n)
  {
    if n > 0 {
      LowHigh(x / 2, n - 1);
      ShlAdd(Low(x / 2, n - 1), Shl(Ushr(x / 2, n - 1), n - 1), 1);
    }
  }

  /** Quotient and remainder are determined by any decomposition x == q * d + r with 0 <= r < d. */
  lemma DivModUnique(x: int, q: int, r: nat, d: nat)
    requires 0 <= r < d && x == q * d + r
    ensures x / d == q && x % d == r
  {
    var q', r' := x / d, x % d;
    assert x == q' * d + r';
    if q' < q {
      MulLe(q' + 1, q, d);
    } else if q < q' {
      MulLe(q + 1, q', d);
    }
  }

  /** Multiplication by a natural is monotonic. */
  lemma {:induction false} MulLe(a: int, b: int, d: nat)
    requires a <= b
    ensures a * d <= b * d
    decreases b - a
  {
    if a < b {
      MulLe(a, b - 1, d);
      assert b * d == (b - 1) * d + d;
    }
  }

  /** The shifts agree with division and remainder by 2^n. */
  lemma UshrLowDivMod(x: nat, n: nat)
    ensures Ushr(x, n) == x / Pow2(n) && Low(x, n) == x % Pow2(n)
  {
    LowHigh(x, n);
    ShlMul(Ushr(x, n), n);
    DivModUnique(x, Ushr(x, n), Low(x, n), Pow2(n));
  }

  /** An n-bit value is its own low part and has nothing above bit n. */
  lemma {:induction false} LowSmall(x: nat, n: nat)
    requires x < Pow2(n)
    ensures Low(x, n) == x && Ushr(x, n) == 0
  {
    if n > 0 {
      LowSmall(x / 2, n - 1);
    }
  }

  lemma {:induction false} UshrLe(x: nat, n: nat)
    ensures Ushr(x, n) <= x
  {
    if n > 0 {
      UshrLe(x / 2, n - 1);
    }
  }

  lemma {:induction false} UshrBound(x: nat, n: nat, w: nat)
    requires n <= w && x < Pow2(w)
    ensures Ushr(x, n) < Pow2(w - n)
    decreases n
  {
    if n > 0 {
      UshrBound(x / 2, n - 1, w - 1);
    }
  }

  /** Shifting right by n <= k, or truncating to n <= k bits, a value with a k-bit low part. */
  lemma {:induction false} SplitAt(a: nat, b: nat, k: nat, n: nat)
    requires n <= k
    ensures Ushr(a + Shl(b, k), n) == Ushr(a, n) + Shl(b, k - n)
    ensures Low(a + Shl(b, k), n) == Low(a, n)
    decreases n
  {
    if n > 0 {
      HalfEven(a, Shl(b, k - 1));
      SplitAt(a / 2, b, k - 1, n - 1);
    }
  }

  /** The low n bits of a shifted value. */
  lemma {:induction false} LowShl(x: nat, k: nat, n: nat)
    requires k <= n
    ensures Low(Shl(x, k), n) == Shl(Low(x, n - k), k)
    decreases k
  {
    if k > 0 {
      LowShl(x, k - 1, n - 1);
      HalfEven(0, Shl(x, k - 1));
      HalfEven(0, Low(Shl(x, k - 1), n - 1));
    }
  }

  /** Shl by 32 is multiplication by 2^32. */
  lemma ShlW32(x: nat)
    ensures Shl(x, 32) == W32 * x
  {
    ShlMul(x, 32);
    Pow2Table();
  }

  lemma {:induction false} UshrUshr(x: nat, a: nat, b: nat)
    ensures Ushr(Ushr(x, a), b) == Ushr(x, a + b)
    decreases a
  {
    if a > 0 {
      UshrUshr(x / 2, a - 1, b);
    }
  }

  /** The low n >= k bits of a value whose low k bits are a. */
  lemma {:induction false} LowAbove(a: nat, b: nat, k: nat, n: nat)
    requires k <= n && a < Pow2(k)
    ensures Low(a + Shl(b, k), n) == a + Shl(Low(b, n - k), k)
    decreases k
  {
    if k == 0 {
      assert a == 0;
    } else {
      HalfEven(a, Shl(b, k - 1));
      LowAbove(a / 2, b, k - 1, n - 1);
    }
  }
  /** Reducing a summand first does not change a sum mod d. */
  lemma ModAddMod(a: nat, x: nat, d: nat)
    requires d > 0
    ensures (a % d + x) % d == (a + x) % d
  {
    var r := (a % d + x) % d;
    var q := (a % d + x) / d;
    assert a % d + x == q * d + r;
    assert a == (a / d) * d + a % d;
    assert a + x == (q + a / d) * d + r;
    DivModUnique(a + x, q + a / d, r, d);
  }
}
