/** Unsigned machine words as natural numbers, with the C bitwise operators
    defined digit by digit and characterised by the bits they set. */
module Bits {

  const WORD_LIMIT: nat := 0x1_0000_0000_0000_0000

  /** A 64-bit memory word. */
  type Word = w: int | 0 <= w < 0x1_0000_0000_0000_0000 witness 0

  function Pow2(n: nat): (p: nat)
    ensures p >= 1
  {
    if n == 0 then 1 else 2 * Pow2(n - 1)
  }

  /** Bit `i` of `x`. */
  predicate Bit(x: nat, i: nat) {
    if i == 0 then x % 2 == 1 else Bit(x / 2, i - 1)
  }

  /** x & y */
  function And(x: nat, y: nat): nat {
    if x == 0 || y == 0 then 0
    else 2 * And(x / 2, y / 2) + (if x % 2 == 1 && y % 2 == 1 then 1 else 0)
  }

  /** x | y */
  function Or(x: nat, y: nat): nat
    decreases x + y
  {
    if x == 0 then y else if y == 0 then x
    else 2 * Or(x / 2, y / 2) + (if x % 2 == 1 || y % 2 == 1 then 1 else 0)
  }

  /** x ^ y */
  function Xor(x: nat, y: nat): nat
    decreases x + y
  {
    if x == 0 then y else if y == 0 then x
    else 2 * Xor(x / 2, y / 2) + (x + y) % 2
  }

  /** ~x on an unsigned type of `n` bits. */
  function Not(n: nat, x: nat): nat
    requires x < Pow2(n)
  {
    Pow2(n) - 1 - x
  }

  /** x << i on a 32-bit unsigned int. */
  function Shl32(x: nat, i: nat): nat {
    (x * Pow2(i)) % 0x1_0000_0000
  }

  /** Index of the highest set bit, as a count-leading-zeros instruction gives it; -1 for 0. */
  function Fls(x: nat): int {
    if x == 0 then -1 else 1 + Fls(x / 2)
  }

  /** Index of the lowest set bit; -1 for 0. */
  function Ffs(x: nat): int {
    if x == 0 then -1 else if x % 2 == 1 then 0 else 1 + Ffs(x / 2)
  }

  lemma {:induction false} BitOfZero(i: nat)
    ensures !Bit(0, i)
  {
    if i > 0 { BitOfZero(i - 1); }
  }

  lemma AndParts(x: nat, y: nat)
    ensures And(x, y) / 2 == And(x / 2, y / 2)
    ensures And(x, y) % 2 == 1 <==> x % 2 == 1 && y % 2 == 1
  {
  }

  lemma OrParts(x: nat, y: nat)
    ensures Or(x, y) / 2 == Or(x / 2, y / 2)
    ensures Or(x, y) % 2 == 1 <==> x % 2 == 1 || y % 2 == 1
  {
  }

  lemma {:induction false} BitAnd(x: nat, y: nat, i: nat)
    ensures Bit(And(x, y), i) == (Bit(x, i) && Bit(y, i))
    decreases i
  {
    hide And;
    AndParts(x, y);
    if i > 0 { BitAnd(x / 2, y / 2, i - 1); }
  }

  lemma {:induction false} BitOr(x: nat, y: nat, i: nat)
    ensures Bit(Or(x, y), i) == (Bit(x, i) || Bit(y, i))
    decreases i
  {
    hide Or;
    OrParts(x, y);
    if i > 0 { BitOr(x / 2, y / 2, i - 1); }
  }

  lemma {:induction false} OrBound(x: nat, y: nat, n: nat)
    requires x < Pow2(n) && y < Pow2(n)
    ensures Or(x, y) < Pow2(n)
  {
    if n > 0 && x > 0 && y > 0 { OrBound(x / 2, y / 2, n - 1); }
  }

  lemma {:induction false} AndBound(x: nat, y: nat)
    ensures And(x, y) <= x
  {
    if x > 0 && y > 0 { AndBound(x / 2, y / 2); }
  }

  lemma {:induction false} BitNot(n: nat, x: nat, i: nat)
    requires x < Pow2(n)
    ensures Bit(Not(n, x), i) == (i < n && !Bit(x, i))
  {
    if n == 0 {
      BitOfZero(i);
    } else {
      assert x / 2 < Pow2(n - 1);
      assert Not(n, x) == 2 * Not(n - 1, x / 2) + (1 - x % 2);
      if i > 0 {
        BitNot(n - 1, x / 2, i - 1);
        assert Not(n, x) / 2 == Not(n - 1, x / 2);
      }
    }
  }

  lemma {:induction false} BitPow2(n: nat, i: nat)
    ensures Bit(Pow2(n), i) == (i == n)
  {
    if n == 0 {
      if i > 0 { BitOfZero(i - 1); }
    } else if i > 0 {
      BitPow2(n - 1, i - 1);
    }
  }

  /** A number with a bit set at `i` or above is at least 2^i; one with all bits below n is under 2^n. */
  lemma {:induction false} BitAtLeast(x: nat, i: nat)
    requires Bit(x, i)
    ensures Pow2(i) <= x
  {
    if i > 0 { BitAtLeast(x / 2, i - 1); }
  }

  lemma {:induction false} FfsIsLowest(x: nat)
    requires x > 0
    ensures Ffs(x) >= 0 && Bit(x, Ffs(x))
    ensures forall i: nat :: i < Ffs(x) ==> !Bit(x, i)
  {
    if x % 2 == 0 {
      FfsIsLowest(x / 2);
      forall i: nat | i < Ffs(x) ensures !Bit(x, i) {
        if i > 0 { assert !Bit(x / 2, i - 1); }
      }
    }
  }

  lemma {:induction false} FlsIsLog2(x: nat)
    requires x > 0
    ensures Fls(x) >= 0 && Pow2(Fls(x)) <= x < 2 * Pow2(Fls(x))
  {
    if x > 1 { FlsIsLog2(x / 2); }
  }

  lemma {:induction false} Pow2Monotone(i: nat, j: nat)
    requires i <= j
    ensures Pow2(i) <= Pow2(j)
  {
    if i < j { Pow2Monotone(i, j - 1); }
  }

  lemma {:induction false} Pow2Add(i: nat, j: nat)
    ensures Pow2(i + j) == Pow2(i) * Pow2(j)
  {
    if i > 0 {
      Pow2Add(i - 1, j);
      assert Pow2(i + j) == 2 * Pow2(i - 1 + j);
      assert 2 * (Pow2(i - 1) * Pow2(j)) == (2 * Pow2(i - 1)) * Pow2(j);
    }
  }

  lemma Pow2Small()
    ensures Pow2(2) == 4 && Pow2(3) == 8 && Pow2(4) == 16 && Pow2(5) == 32 && Pow2(7) == 128
  {
  }

  lemma Pow2Values()
    ensures Pow2(2) == 4 && Pow2(3) == 8 && Pow2(4) == 16 && Pow2(5) == 32 && Pow2(7) == 128 && Pow2(8) == 256
    ensures Pow2(16) == 0x1_0000 && Pow2(32) == 0x1_0000_0000
    ensures Pow2(63) == 0x8000_0000_0000_0000 && Pow2(64) == 0x1_0000_0000_0000_0000
  {
    Pow2Small();
    Pow2Double(63);
    hide Pow2;
    Pow2Add(4, 4);
    Pow2Add(8, 8);
    Pow2Add(16, 16);
    Pow2Add(32, 32);
  }

  lemma Pow2Double(n: nat)
    ensures Pow2(n + 1) == 2 * Pow2(n)
  {
  }

  /** Masking with the low n bits keeps a number below 2^n. */
  lemma {:induction false} AndLowMask(x: nat, n: nat)
    requires x < Pow2(n)
    ensures And(x, Pow2(n) - 1) == x
  {
    if x > 0 {
      assert n > 0;
      AndLowMask(x / 2, n - 1);
      assert (Pow2(n) - 1) / 2 == Pow2(n - 1) - 1;
    }
  }

  /** x & ~(2^a - 1) on n bits rounds down to a multiple of 2^a. */
  lemma {:induction false} AndHighMask(x: nat, a: nat, n: nat)
    requires a <= n && x < Pow2(n)
    ensures Pow2(a) <= Pow2(n)
    ensures And(x, Not(n, Pow2(a) - 1)) == x - x % Pow2(a)
  {
    Pow2Monotone(a, n);
    if a == 0 {
      AndLowMask(x, n);
    } else {
      hide And;
      AndHighMask(x / 2, a - 1, n - 1);
      MaskStep(x, Pow2(a - 1), Pow2(n - 1));
    }
  }

  /** One step of the mask: the lowest bit is masked off and the rest is as for x / 2. */
  lemma MaskStep(x: nat, p: nat, q: nat)
    requires 1 <= p <= q && And(x / 2, q - 1 - (p - 1)) == x / 2 - x / 2 % p
    ensures And(x, 2 * q - 1 - (2 * p - 1)) == x - x % (2 * p)
  {
    AndEven(x, q - p);
    ModDouble(x, p);
    var h := x / 2;
    var r := h % p;
    assert 2 * q - 1 - (2 * p - 1) == 2 * (q - p) && q - 1 - (p - 1) == q - p;
    assert And(h, q - p) == h - r;
    assert x % (2 * p) == 2 * r + x % 2;
  }

  lemma AndEven(x: nat, y: nat)
    ensures And(x, 2 * y) == 2 * And(x / 2, y)
  {
  }

  lemma ModDouble(x: nat, d: nat)
    requires d > 0
    ensures x % (2 * d) == 2 * ((x / 2) % d) + x % 2
  {
    var h := x / 2;
    var q, r := h / d, h % d;
    assert h == q * d + r;
    assert x == (2 * d) * q + (2 * r + x % 2);
    DivModUnique(x, 2 * d, q, 2 * r + x % 2);
  }

  lemma MulGap(d: int, a: int, b: int)
    requires d > 0 && a > b
    ensures d * a >= d * b + d
  {
    assert d * (a - b - 1) >= 0;
    assert d * (a - b - 1) == d * a - d * b - d;
  }

  /** Quotient and remainder are determined by the division equation. */
  lemma DivModUnique(x: int, d: int, q: int, r: int)
    requires d > 0 && 0 <= r < d && x == d * q + r
    ensures x / d == q && x % d == r
  {
    var q', r' := x / d, x % d;
    assert 0 <= r' < d && x == d * q' + r';
    if q > q' {
      MulGap(d, q, q');
    } else if q < q' {
      MulGap(d, q', q);
    }
  }

  lemma DivBounds(x: nat, d: nat)
    requires d > 0
    ensures (x / d) * d <= x < (x / d + 1) * d
  {
    assert x == d * (x / d) + x % d;
    assert (x / d + 1) * d == (x / d) * d + d;
  }

  lemma QuotientRange(x: nat, d: nat, lo: nat, hi: nat)
    requires d > 0 && lo * d <= x < hi * d
    ensures lo <= x / d < hi
  {
    DivBounds(x, d);
    var q := x / d;
    if q < lo { MulGap(d, lo, q); }
    if hi < q { MulGap(d, q, hi); }
  }

  lemma RoundDown(x: nat, d: nat)
    requires d > 0
    ensures 0 <= x - x % d <= x && (x - x % d) % d == 0
  {
    assert x == d * (x / d) + x % d;
    DivModUnique(d * (x / d), d, x / d, 0);
  }

  /** x & (2^n - 1) */
  lemma {:induction false} AndLowBits(x: nat, n: nat)
    ensures And(x, Pow2(n) - 1) == x % Pow2(n)
  {
    if n > 0 {
      AndLowBits(x / 2, n - 1);
      ModDouble(x, Pow2(n - 1));
      if x > 0 { assert (Pow2(n) - 1) / 2 == Pow2(n - 1) - 1; }
    }
  }

  /** Or of numbers with no bit in common at a boundary is their sum. */
  lemma {:induction false} OrDisjoint(x: nat, y: nat, n: nat)
    requires x % Pow2(n) == 0 && y < Pow2(n)
    ensures Or(x, y) == x + y
  {
    if n > 0 && x > 0 && y > 0 {
      ModDouble(x, Pow2(n - 1));
      OrDisjoint(x / 2, y / 2, n - 1);
    }
  }

  lemma OrOne(x: nat)
    ensures Or(x, 1) == x - x % 2 + 1
  {
    assert x > 0 ==> Or(x, 1) == 2 * Or(x / 2, 0) + 1;
    assert Or(x / 2, 0) == x / 2;
  }

  lemma OrTwo(x: nat)
    ensures Or(x, 2) == if x % 4 >= 2 then x else x + 2
  {
    OrOne(x / 2);
    assert x > 0 ==> Or(x, 2) == 2 * Or(x / 2, 1) + x % 2;
  }

  lemma AndNotTwo(x: nat)
    requires x < Pow2(64)
    ensures 2 < Pow2(64) && And(x, Not(64, 2)) == if x % 4 >= 2 then x - 2 else x
  {
    hide And;
    Pow2Values();
    AndNotOne(x / 2);
    AndOdd(x, 0x7fff_ffff_ffff_fffe);
    assert Not(64, 2) == 2 * 0x7fff_ffff_ffff_fffe + 1;
  }

  lemma AndOdd(x: nat, y: nat)
    ensures And(x, 2 * y + 1) == 2 * And(x / 2, y) + x % 2
  {
  }

  lemma AndNotOne(x: nat)
    requires x < Pow2(63)
    ensures And(x, 0x7fff_ffff_ffff_fffe) == x - x % 2
  {
    hide And;
    Pow2Values();
    AndHighMask(x, 1, 63);
    assert Not(63, Pow2(1) - 1) == 0x7fff_ffff_ffff_fffe;
  }
}
