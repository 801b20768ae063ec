/**
 * Word arithmetic of the cipher engine, for the compiled word width
 * WORD_SZ = 64 (rc6.c:50, rc6.c:68-73).
 *
 * A word is an integer in [0, 2^64); every operation wraps modulo 2^64
 * explicitly, as C's unsigned arithmetic on uint64_t does. Shifts,
 * rotations and exclusive or are written out arithmetically.
 */
module Words {
  /** Bits per word (WORD_SZ) and log2 of it (LGW). */
  const W: nat := 64
  const LGW: nat := 6
  /** 2^W: the modulus of all word arithmetic. */
  const M: nat := 0x1_0000_0000_0000_0000

  type Word = x: int | 0 <= x < M

  /** The magic constants Odd((e-2)2^64) and Odd((phi-1)2^64). */
  const P: Word := 0xb7e1_5162_8aed_2a6b
  const Q: Word := 0x9e37_79b9_7f4a_7c15

  function Pow2(n: nat): (r: nat)
    ensures r >= 1
  {
    if n == 0 then 1 else 2 * Pow2(n - 1)
  }

  lemma {:induction false} Pow2Add(a: nat, b: nat)
    ensures Pow2(a + b) == Pow2(a) * Pow2(b)
  {
    if a > 0 {
      Pow2Add(a - 1, b);
    }
  }

  lemma Pow2Byte()
    ensures Pow2(8) == 256
  {
    assert Pow2(2) == 4;
    assert Pow2(4) == 16;
    assert Pow2(6) == 64;
  }

  lemma Pow2Half()
    ensures Pow2(32) == 0x1_0000_0000
  {
    var b := Pow2(8);
    assert b == 256 by {
      Pow2Byte();
    }
    var h := Pow2(16);
    assert h == b * b by {
      Pow2Add(8, 8);
    }
    assert Pow2(32) == h * h by {
      Pow2Add(16, 16);
    }
  }

  lemma Pow2W()
    ensures Pow2(W) == M
  {
    var h := Pow2(32);
    assert h == 0x1_0000_0000 by {
      Pow2Half();
    }
    assert Pow2(W) == h * h by {
      Pow2Add(32, 32);
    }
  }

  lemma MulAtLeast(a: int, m: nat)
    requires a >= 1
    ensures a * m >= m
  {
    var k := a - 1;
    assert a * m == m + k * m;
  }

  /** Quotient and remainder are unique. */
  lemma DivModOf(q: nat, r: nat, m: nat)
    requires r < m
    ensures (q * m + r) / m == q
    ensures (q * m + r) % m == r
  {
    var n := q * m + r;
    var q', r' := n / m, n % m;
    assert n == q' * m + r';
    assert (q - q') * m == r' - r;
    if q > q' {
      MulAtLeast(q - q', m);
    } else if q < q' {
      MulAtLeast(q' - q, m);
    }
  }

  /** x < a*b implies x / a < b. */
  lemma DivBelow(x: nat, a: nat, b: nat)
    requires a >= 1 && x < a * b
    ensures x / a < b
  {

  }

  /** l < a implies l*b + b <= a*b. */
  lemma MulBelow(l: nat, a: nat, b: nat)
    requires l < a
    ensures l * b + b <= a * b
  {
    var k := a - l - 1;
    assert a * b == l * b + b + k * b;
  }

  function Max(a: int, b: int): (r: int)
    ensures r >= a && r >= b
    ensures r == a || r == b
  {
    if a > b then a else b
  }

  function Add(x: Word, y: Word): Word { (x + y) % M }
  function Sub(x: Word, y: Word): Word { (x - y) % M }
  /**
   * The low n bits of y times x, modulo 2^64, by shift-and-add over the
   * bits of y from the most significant down.
   */
  function MulBits(x: Word, y: nat, n: nat): Word
  {
    if n == 0 then 0
    else (2 * MulBits(x, y / 2, n - 1) + (if y % 2 == 1 then x else 0)) % M
  }

  /** The 64-bit product x * y as unsigned C arithmetic computes it. */
  function Mul(x: Word, y: Word): Word { MulBits(x, y, W) }

  lemma {:induction false} MulBitsValue(x: Word, y: nat, n: nat)
    requires y < Pow2(n)
    ensures MulBits(x, y, n) == (x * y) % M
    decreases n
  {
    if n > 0 {
      var h, b := y / 2, y % 2;
      var p := Pow2(n - 1);
      assert h < p by {
        DivBelow(y, 2, p);
      }
      var c := if y % 2 == 1 then x else 0;
      var a := x * h;
      assert a + a + c == x * y by {
        ProductStep(x, h, b, y);
      }
      var m := MulBits(x, h, n - 1);
      assert m == a % M by {
        MulBitsValue(x, h, n - 1);
      }
      assert MulBits(x, y, n) == (2 * m + c) % M;
      DoubleMod(a, c);
    }
  }

  lemma ProductStep(x: nat, h: nat, b: nat, y: nat)
    requires y == 2 * h + b && b < 2
    ensures x * h + x * h + (if b == 1 then x else 0) == x * y
  {
  }

  /** Doubling commutes with reduction modulo 2^64. */
  lemma DoubleMod(a: nat, c: nat)
    ensures (2 * (a % M) + c) % M == (a + a + c) % M
  {
    var q, r := a / M, a % M;
    assert a + a + c == (2 * q) * M + (2 * r + c);
    ModAddMultiple(2 * q, 2 * r + c, M);
  }

  /** Shift-and-add over all 64 bits is the product modulo 2^64. */
  lemma MulValue(x: Word, y: Word)
    ensures Mul(x, y) == (x * y) % M
  {
    Pow2W();
    MulBitsValue(x, y, W);
  }

  lemma AddSub(x: Word, k: Word)
    ensures Sub(Add(x, k), k) == x
  {
  }

  lemma SubAdd(x: Word, k: Word)
    ensures Add(Sub(x, k), k) == x
  {
  }

  lemma ModSmall(z: int, m: int)
    requires 0 <= z < m
    ensures z % m == z
  {
  }

  /** (k*m + z) % m == z % m. */
  lemma ModAddMultiple(k: nat, z: nat, m: nat)
    requires m >= 1
    ensures (k * m + z) % m == z % m
  {
    assert k * m + z == (k + z / m) * m + z % m;
    DivModOf(k + z / m, z % m, m);
  }

  /** (x / a) / b == x / (a * b). */
  lemma DivDiv(x: nat, a: nat, b: nat)
    requires a >= 1 && b >= 1
    ensures (x / a) / b == x / (a * b)
  {
    var ab := a * b;
    MulAtLeast(a, b);
    var q, r := x / ab, x % ab;
    var r1, r0 := r / a, r % a;
    assert r1 < b by {
      DivBelow(r, a, b);
    }
    var q1 := q * b + r1;
    assert x == q1 * a + r0 by {
      assert x == q * ab + r;
      assert r == r1 * a + r0;
      assert q * ab == (q * b) * a;
    }
    assert x / a == q1 by {
      DivModOf(q1, r0, a);
    }
    DivModOf(q, r1, b);
  }

  /** x << s on a 64-bit unsigned word: s one-bit shifts, each losing bit 63. */
  function Shl(x: Word, s: nat): Word
    requires s <= W
  {
    if s == 0 then x else (2 * Shl(x, s - 1)) % M
  }

  /** x >> s on a 64-bit unsigned word: s one-bit shifts, each losing bit 0. */
  function Shr(x: Word, s: nat): Word
    requires s <= W
  {
    if s == 0 then x else Shr(x / 2, s - 1)
  }

  /** Shifting left by s multiplies by 2^s, modulo 2^64. */
  lemma {:induction false} ShlValue(x: Word, s: nat)
    requires s <= W
    ensures Shl(x, s) == (x * Pow2(s)) % M
    decreases s
  {
    if s > 0 {
      var p := Pow2(s - 1);
      var a := x * p;
      assert Shl(x, s - 1) == a % M by {
        ShlValue(x, s - 1);
      }
      assert a + a == x * Pow2(s);
      DoubleMod(a, 0);
    }
  }

  /** Shifting right by s divides by 2^s, rounding down. */
  lemma {:induction false} ShrValue(x: Word, s: nat)
    requires s <= W
    ensures Shr(x, s) == x / Pow2(s)
    decreases s
  {
    if s > 0 {
      ShrValue(x / 2, s - 1);
      DivDiv(x, 2, Pow2(s - 1));
    }
  }

  /**
   * A word cut at bit W-s: x == hi * 2^(W-s) + lo. Shifting left by s keeps
   * exactly lo, moved up by s bits; shifting right by W-s keeps exactly hi,
   * which is below 2^s. The two parts share no set bit and their sum is a
   * word, so rotating by s swaps hi and lo.
   */
  lemma ShiftSplit(x: Word, s: nat)
    requires s <= W
    ensures Shl(x, s) == (x % Pow2(W - s)) * Pow2(s)
    ensures Shr(x, W - s) == x / Pow2(W - s) < Pow2(s)
    ensures Rotate(x, s) == (x % Pow2(W - s)) * Pow2(s) + x / Pow2(W - s)
  {
    var pa, ps := Pow2(W - s), Pow2(s);
    assert pa * ps == M by {
      Pow2Add(W - s, s);
      Pow2W();
    }
    SplitProduct(x, pa, ps);
    var lo, hi := Shl(x, s), Shr(x, W - s);
    assert lo == (x * ps) % M by {
      ShlValue(x, s);
    }
    assert hi == x / pa by {
      ShrValue(x, W - s);
    }
    assert lo + hi < M;
    RotateNoWrap(x, s);
  }

  /** The arithmetic behind ShiftSplit, for a modulus split as pa * ps. */
  lemma SplitProduct(x: nat, pa: nat, ps: nat)
    requires pa >= 1 && ps >= 1 && x < pa * ps
    ensures (x * ps) % (pa * ps) == (x % pa) * ps
    ensures x / pa < ps
    ensures (x % pa) * ps + x / pa < pa * ps
  {
    var m := pa * ps;
    var hi, lo := x / pa, x % pa;
    assert x * ps == hi * m + lo * ps by {
      assert x == hi * pa + lo;
      assert x * ps == (hi * pa + lo) * ps;
    }
    assert lo * ps + ps <= m by {
      MulBelow(lo, pa, ps);
    }
    assert (x * ps) % m == lo * ps by {
      DivModOf(hi, lo * ps, m);
    }
    assert hi < ps by {
      DivBelow(x, pa, ps);
    }
  }

  /**
   * (x << s) | (x >> (W-s)), for 0 <= s <= W. The two parts share no set
   * bit and their sum is below 2^64 (ShiftSplit), so the | is a sum and the
   * final reduction never changes it.
   */
  function Rotate(x: Word, s: nat): Word
    requires s <= W
  {
    (Shl(x, s) + Shr(x, W - s)) % M
  }

  /** When the two shifted parts fit in a word, rotating is adding them. */
  lemma RotateNoWrap(x: Word, s: nat)
    requires s <= W && Shl(x, s) + Shr(x, W - s) < M
    ensures Rotate(x, s) == Shl(x, s) + Shr(x, W - s)
  {
    ModSmall(Shl(x, s) + Shr(x, W - s), M);
  }

  /** Rotating by s and then by W-s puts every bit back. */
  lemma RotateInverse(x: Word, s: nat)
    requires s <= W
    ensures Rotate(Rotate(x, s), W - s) == x
  {
    var pa, ps := Pow2(W - s), Pow2(s);
    assert pa * ps == M by {
      Pow2Add(W - s, s);
      Pow2W();
    }
    var y := Rotate(x, s);
    assert y == (x % pa) * ps + x / pa by {
      ShiftSplit(x, s);
    }
    assert Rotate(y, W - s) == (y % ps) * pa + y / ps by {
      ShiftSplit(y, W - s);
      assert W - (W - s) == s;
    }
    SwapHalves(x, pa, ps);
  }

  /** The arithmetic behind RotateInverse: swapping the two halves twice. */
  lemma SwapHalves(x: nat, pa: nat, ps: nat)
    requires pa >= 1 && ps >= 1 && x < pa * ps
    ensures var y := (x % pa) * ps + x / pa;
      (y % ps) * pa + y / ps == x
  {
    var hi, lo := x / pa, x % pa;
    assert hi < ps by {
      DivBelow(x, pa, ps);
    }
    DivModOf(lo, hi, ps);
  }

  /**
   * rotl (rc6.c:88): (x << d) | (x >> (W - d)). For d == 0 the C right
   * shift is by the full width, which C leaves undefined; here that shift
   * yields 0, so rotating by 0 is the identity, as the cipher intends.
   */
  function RotL(x: Word, d: nat): Word
    requires d < W
  {
    Rotate(x, d)
  }

  /** rotr (rc6.c:89): (x >> d) | (x << (W - d)), with the same d == 0 reading. */
  function RotR(x: Word, d: nat): Word
    requires d < W
  {
    (Shr(x, d) + Shl(x, W - d)) % M
  }

  lemma RotRRotL(x: Word, d: nat)
    requires d < W
    ensures RotR(RotL(x, d), d) == x
  {
    RotateInverse(x, d);
    assert RotR(RotL(x, d), d) == Rotate(RotL(x, d), W - d);
  }

  lemma RotLRotR(x: Word, d: nat)
    requires d < W
    ensures RotL(RotR(x, d), d) == x
  {
    RotateInverse(x, W - d);
    assert RotR(x, d) == Rotate(x, W - d);
  }

  /** Shifting a word by its full width leaves nothing, either way. */
  lemma ShlFull(x: Word)
    ensures Shl(x, W) == 0
  {
    Pow2W();
    ShlValue(x, W);
    ModAddMultiple(x, 0, M);
  }

  lemma ShrFull(x: Word)
    ensures Shr(x, W) == 0
  {
    Pow2W();
    ShrValue(x, W);
  }

  /** Rotating either way by 0 is the identity under the d == 0 reading. */
  lemma RotLZero(x: Word)
    ensures RotL(x, 0) == x
  {
    ShrFull(x);
    assert RotL(x, 0) == (Shl(x, 0) + Shr(x, W)) % M;
  }

  lemma RotRZero(x: Word)
    ensures RotR(x, 0) == x
  {
    ShlFull(x);
    assert RotR(x, 0) == (Shr(x, 0) + Shl(x, W)) % M;
  }

  /** A rotation amount taken from a word: x % WORD_SZ. */
  function Amt(x: Word): (d: nat)
    ensures d < W
  {
    x % W
  }

  /** Bitwise exclusive or of the low n bits of x and y. */
  function XorBits(x: nat, y: nat, n: nat): nat
  {
    if n == 0 then 0
    else (if x % 2 == y % 2 then 0 else 1) + 2 * XorBits(x / 2, y / 2, n - 1)
  }

  lemma {:induction false} XorBitsInvolution(x: nat, y: nat, n: nat)
    requires x < Pow2(n)
    ensures XorBits(XorBits(x, y, n), y, n) == x
  {
    if n > 0 {
      var bit := if x % 2 == y % 2 then 0 else 1;
      var rest := XorBits(x / 2, y / 2, n - 1);
      var z := XorBits(x, y, n);
      assert z % 2 == bit && z / 2 == rest by {
        assert z == rest * 2 + bit;
        DivModOf(rest, bit, 2);
      }
      assert x / 2 < Pow2(n - 1);
      XorBitsInvolution(x / 2, y / 2, n - 1);
      assert (if z % 2 == y % 2 then 0 else 1) == x % 2;
    }
  }

  lemma {:induction false} XorBitsBound(x: nat, y: nat, n: nat)
    ensures XorBits(x, y, n) < Pow2(n)
  {
    if n > 0 {
      XorBitsBound(x / 2, y / 2, n - 1);
    }
  }

  /** Bit i of x: (x >> i) & 1. */
  function Bit(x: nat, i: nat): (b: nat)
    ensures b < 2
  {
    (x / Pow2(i)) % 2
  }

  /** Each of the low n bits of XorBits(x, y, n) is the exclusive or of the bits of x and y. */
  lemma {:induction false} XorBitsBit(x: nat, y: nat, n: nat, i: nat)
    requires i < n
    ensures Bit(XorBits(x, y, n), i) == (if Bit(x, i) == Bit(y, i) then 0 else 1)
  {
    var bit := if x % 2 == y % 2 then 0 else 1;
    var rest := XorBits(x / 2, y / 2, n - 1);
    var z := XorBits(x, y, n);
    assert z % 2 == bit && z / 2 == rest by {
      assert z == rest * 2 + bit;
      DivModOf(rest, bit, 2);
    }
    if i > 0 {
      var p := Pow2(i - 1);
      assert Pow2(i) == 2 * p;
      DivDiv(z, 2, p);
      DivDiv(x, 2, p);
      DivDiv(y, 2, p);
      XorBitsBit(x / 2, y / 2, n - 1, i - 1);
    }
  }

  /**
   * x ^ y on words: the exclusive or of the low W bits, which are all of
   * them, so the final reduction never changes it (XorBitsBound).
   */
  function Xor(x: Word, y: Word): Word
  {
    XorBits(x, y, W) % M
  }

  lemma XorInvolution(x: Word, y: Word)
    ensures Xor(Xor(x, y), y) == x
  {
    var z := XorBits(x, y, W);
    assert z < M by {
      XorBitsBound(x, y, W);
      Pow2W();
    }
    assert Xor(x, y) == z;
    assert XorBits(z, y, W) == x by {
      Pow2W();
      XorBitsInvolution(x, y, W);
    }
  }

  /** Every bit of x ^ y is the exclusive or of the corresponding bits of x and y. */
  lemma XorBit(x: Word, y: Word, i: nat)
    requires i < W
    ensures Bit(Xor(x, y), i) == (if Bit(x, i) == Bit(y, i) then 0 else 1)
  {
    assert Xor(x, y) == XorBits(x, y, W) by {
      XorBitsBound(x, y, W);
      Pow2W();
    }
    XorBitsBit(x, y, W, i);
  }
}
