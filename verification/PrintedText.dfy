/** The characters num prints, one by one. */
module PrintedText {
  import opened Bits
  import opened Numbers

  function Power(base: nat, n: nat): nat {
    if n == 0 then 1 else base * Power(base, n - 1)
  }

  lemma {:induction false} PowerPositive(base: nat, n: nat)
    requires base > 0
    ensures Power(base, n) > 0
  {
    if n > 0 { PowerPositive(base, n - 1); }
  }

  lemma Scales(a: nat, x: nat, y: nat)
    requires x <= y
    ensures a * x <= a * y && a * (y - x) == a * y - a * x
  {
    assert a * (x + (y - x)) == a * x + a * (y - x);
  }

  lemma Quotient(v: nat, d: nat)
    requires d > 0
    ensures v == d * (v / d) + v % d && v % d < d
  {
  }

  lemma DivideTwice(v: nat, base: nat, p: nat)
    requires base > 0 && p > 0
    ensures base * p > 0 && v / base / p == v / (base * p)
  {
    var q, r := v / base, v % base;
    var h, l := q / p, q % p;
    Quotient(v, base);
    Quotient(q, p);
    Scales(base, 1, p);
    Scales(base, l, p - 1);
    Scales(base, p - 1, p);
    Regroup(v, base, p, q, r, h, l);
    DivModUnique(v, base * p, h, base * l + r);
  }

  lemma Regroup(v: nat, base: nat, p: nat, q: nat, r: nat, h: nat, l: nat)
    requires v == base * q + r && q == p * h + l
    ensures v == (base * p) * h + (base * l + r)
  {
    assert base * (p * h + l) == base * (p * h) + base * l;
    assert base * (p * h) == (base * p) * h;
  }

  /** The character for a digit. */
  function Glyph(d: nat, upper: bool): char
    requires d < 16
  {
    if upper then "0123456789ABCDEF"[d] else "0123456789abcdef"[d]
  }

  lemma PowerStep(base: nat, n: nat)
    requires base > 0 && n > 0
    ensures Power(base, n) == base * Power(base, n - 1) && Power(base, n) > 0 && Power(base, n - 1) > 0
  {
    PowerPositive(base, n);
    PowerPositive(base, n - 1);
  }

  /** The digit of v at the power p of the base. */
  function Place(v: nat, base: nat, p: nat): (d: nat)
    requires base > 0 && p > 0
    ensures d < base
  {
    v / p % base
  }

  lemma PlaceUp(v: nat, base: nat, p: nat)
    requires base > 0 && p > 0
    ensures base * p > 0 && Place(v, base, base * p) == Place(v / base, base, p)
  {
    DivideTwice(v, base, p);
  }

  lemma PlaceOne(v: nat, base: nat)
    requires base > 0
    ensures Place(v, base, 1) == v % base && (v / base != 0 ==> v / base < v || base == 1)
  {
    assert v / 1 == v;
    Quotient(v, base);
    if base > 1 { Scales(v / base, 2, base); }
  }

  lemma GlyphIs(d: nat, upper: bool)
    requires d < 16
    ensures DigitChar(d, upper) == Glyph(d, upper)
  {
  }

  /** Digit k stands for its power of the base; letters are upper case exactly when asked for. */
  lemma {:induction false} DigitAt(v: nat, base: nat, upper: bool, k: nat)
    requires (base == 10 || base == 16) && k < |Digits(v, base, upper)|
    ensures var p := Power(base, |Digits(v, base, upper)| - 1 - k);
      p > 0 && Digits(v, base, upper)[k] == Glyph(Place(v, base, p), upper)
    decreases v
  {
    var n := |Digits(v, base, upper)|;
    LastDigit(v, base, upper);
    hide Digits, Power, Place, DigitChar, Glyph;
    PlaceOne(v, base);
    if k < n - 1 {
      assert Digits(v, base, upper)[k] == Digits(v, base, upper)[..n - 1][k];
      DigitAt(v / base, base, upper, k);
      PowerStep(base, n - 1 - k);
      PlaceUp(v, base, Power(base, n - 2 - k));
    } else {
      PowerZero(base);
      GlyphIs(v % base, upper);
    }
  }

  lemma PowerZero(base: nat)
    ensures Power(base, 0) == 1
  {
  }

  /** There are as many digits as the number needs: no leading zero but for 0 itself. */
  lemma {:induction false} DigitsNeeded(v: nat, base: nat, upper: bool)
    requires base == 10 || base == 16
    ensures var n := |Digits(v, base, upper)|;
      v < Power(base, n) && (n > 1 ==> v >= Power(base, n - 1))
    decreases v
  {
    var n := |Digits(v, base, upper)|;
    LastDigit(v, base, upper);
    if v / base == 0 {
      assert Power(base, 1) == base * Power(base, 0) == base;
    } else {
      hide Digits;
      DigitsNeeded(v / base, base, upper);
      Scaled(v, base, Power(base, n - 1), if n > 2 then Power(base, n - 2) else 1);
    }
  }

  lemma Scaled(v: nat, base: nat, p: nat, q: nat)
    requires base > 0 && q <= v / base < p
    ensures base * q <= v < base * p
  {
    Quotient(v, base);
    Scales(base, q, v / base);
    Scales(base, v / base + 1, p);
    Scales(base, v / base, v / base + 1);
  }

  /** Every character of the text: the digits at the end; in front of them, zeros behind the sign when zeros
      are asked for, and otherwise spaces before the sign. */
  lemma NumTextIs(v: nat, neg: bool, base: nat, upper: bool, w: int, zero: bool, k: nat)
    requires (base == 10 || base == 16) && k < |NumText(v, neg, base, upper, w, zero)|
    ensures var digits := Digits(v, base, upper);
      var text := NumText(v, neg, base, upper, w, zero);
      var front := |text| - |digits|;
      && front >= 0 && (neg ==> front > 0)
      && text[k] ==
           if k >= front then digits[k - front]
           else if zero then (if neg && k == 0 then '-' else '0')
           else if neg && k == front - 1 then '-' else ' '
  {
    hide Digits;
  }

  /** A 5 in a field of two, padded with zeros. */
  lemma FiveOfTwo()
    ensures NumText(5, false, 10, false, 2, true) == "05"
  {
    assert Digits(5, 10, false) == ['5'];
  }
}
