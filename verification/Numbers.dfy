/** Printing integers into a bounded buffer and parsing them back. Characters are C chars with
    codes below 256; a string ends at its NUL. */
module Numbers {
  import opened Bits

  const NUL: char := '\0'

  /** Conversion of a 64-bit pattern, or of a negation that may wrap, to long long. */
  function ToInt64(x: int): int {
    (x + 0x8000_0000_0000_0000) % 0x1_0000_0000_0000_0000 - 0x8000_0000_0000_0000
  }

  // ---------------------------------------------------------------- text of a number

  function DigitChar(d: nat, upper: bool): char
    requires d < 16
  {
    if d < 10 then '0' + d as char else (if upper then 'A' else 'a') + (d - 10) as char
  }

  /** The digits of v, most significant first, with no leading zero but for v = 0. */
  function Digits(v: nat, base: nat, upper: bool): (s: seq<char>)
    requires base == 10 || base == 16
    ensures |s| > 0
  {
    if v < base then [DigitChar(v, upper)] else Digits(v / base, base, upper) + [DigitChar(v % base, upper)]
  }

  function Repeat(c: char, n: int): (s: seq<char>)
    ensures |s| == if n > 0 then n else 0
    ensures forall i :: 0 <= i < |s| ==> s[i] == c
  {
    seq(if n > 0 then n else 0, i => c)
  }

  /** The value of a magnitude with a sign. */
  function Signed(v: nat, neg: bool): int {
    if neg then -(v as int) else v
  }

  /** What num emits in front of n digits: padding to width w with zeros or spaces, and a minus
      sign in front of zeros or behind spaces. */
  function FrontText(n: nat, neg: bool, w: int, zero: bool): seq<char> {
    if zero && neg && w > n + 1 then ['-'] + Repeat('0', w - n)
    else Repeat(if zero then '0' else ' ', w - n - (if neg then 1 else 0)) + (if neg then ['-'] else [])
  }

  /** What num emits for the magnitude v. */
  function NumText(v: nat, neg: bool, base: nat, upper: bool, w: int, zero: bool): seq<char>
    requires base == 10 || base == 16
  {
    var digits := Digits(v, base, upper);
    FrontText(|digits|, neg, w, zero) + digits
  }

  /** The text has the width asked for, or that of the number if greater, except when a negative
      number is padded with zeros: then it is one wider. */
  lemma NumWidth(v: nat, neg: bool, base: nat, upper: bool, w: int, zero: bool)
    requires base == 10 || base == 16
    ensures var n := |Digits(v, base, upper)| + (if neg then 1 else 0);
      var width := |NumText(v, neg, base, upper, w, zero)|;
      && (width == (if w > n then w else n) <==> !(zero && neg && w > n))
      && (zero && neg && w > n ==> width == w + 1)
  {
  }

  /** -5 in a field of three, padded with zeros, takes four characters. */
  lemma NumTooWide()
    ensures NumText(5, true, 10, false, 3, true) == "-005"
  {
    assert Digits(5, 10, false) == ['5'];
  }

  // ---------------------------------------------------------------- printing

  /** The output sink: `len` counts everything emitted, the buffer keeps what fits before a
      terminator. */
  class Sink {
    const buf: array<char>
    const cap: nat
    var len: nat
    ghost var text: seq<char>

    ghost predicate Valid()
      reads this, buf
    {
      && 1 <= cap && cap - 1 <= buf.Length && len == |text|
      && forall i {:trigger buf[i]} :: 0 <= i < len && i < cap - 1 ==> buf[i] == text[i]
    }

    constructor (buf: array<char>, cap: nat)
      requires 1 <= cap && cap - 1 <= buf.Length
      ensures Valid() && this.buf == buf && this.cap == cap && text == []
    {
      this.buf, this.cap, len, text := buf, cap, 0, [];
    }

    /** putch, that is emit of one character. */
    method Put(c: char)
      requires Valid()
      modifies this, buf
      ensures Valid() && text == old(text) + [c]
    {
      if len + 1 < cap {
        buf[len] := c;
      }
      len := len + 1;
      text := text + [c];
    }

    /** The first loop of num: the digits, least significant first. The temporary of 24
        characters holds every 64-bit value in base 10 or 16. */
    static method DigitsBackwards(v: nat, base: nat, upper: bool) returns (t: array<char>, i: nat)
      requires v < WORD_LIMIT && (base == 10 || base == 16)
      ensures fresh(t) && t.Length == 24 && i == |Digits(v, base, upper)| <= 24
      ensures forall k :: 0 <= k < i ==> t[k] == Digits(v, base, upper)[i - 1 - k]
    {
      hide Digits;
      t := new char[24];
      ghost var digits := Digits(v, base, upper);
      DigitsFit(v, base, upper, 20);
      LastDigit(v, base, upper);
      t[0] := DigitChar(v % base, upper);
      i := 1;
      var rest: nat := v / base;
      while rest != 0
        invariant 1 <= i <= |digits|
        invariant rest == 0 ==> i == |digits|
        invariant rest != 0 ==> i < |digits| && digits[..|digits| - i] == Digits(rest, base, upper)
        invariant forall k :: 0 <= k < i ==> t[k] == digits[|digits| - 1 - k]
        decreases rest
      {
        ghost var before := digits[..|digits| - i];
        LastDigit(rest, base, upper);
        t[i] := DigitChar(rest % base, upper);
        assert before[..|before| - 1] == digits[..|digits| - i - 1];
        i, rest := i + 1, rest / base;
      }
    }

    /** The second loop of num: n fill characters, none when n is not positive. */
    method Pad(c: char, n: int)
      requires Valid()
      modifies this, buf
      ensures Valid() && text == old(text) + Repeat(c, n)
    {
      var p := n;
      while p > 0
        invariant Valid() && p <= n && (if n >= 0 then p >= 0 else p == n) && text == old(text) + Repeat(c, n - p)
      {
        Put(c);
        assert Repeat(c, n - p) + [c] == Repeat(c, n - p + 1);
        p := p - 1;
      }
      assert Repeat(c, n) == Repeat(c, n - p);
    }

    /** The sign and the padding. */
    method Front(i: nat, neg: bool, w: int, zero: bool)
      requires Valid()
      modifies this, buf
      ensures Valid() && text == old(text) + FrontText(i, neg, w, zero)
    {
      hide Repeat;
      var minus := neg;
      if zero && neg && w > i + 1 {
        Put('-');
        minus := false;
      }
      Pad(if zero then '0' else ' ', w - i - (if minus then 1 else 0));
      if minus {
        Put('-');
      }
    }

    /** num */
    method Num(v: nat, neg: bool, base: nat, upper: bool, w: int, zero: bool)
      requires Valid() && v < WORD_LIMIT && (base == 10 || base == 16)
      modifies this, buf
      ensures Valid() && text == old(text) + NumText(v, neg, base, upper, w, zero)
    {
      hide Digits, FrontText;
      var t, i := DigitsBackwards(v, base, upper);
      Front(i, neg, w, zero);
      EmitBackwards(t, i, Digits(v, base, upper));
    }

    /** The last loop of num. */
    method EmitBackwards(t: array<char>, n: nat, ghost digits: seq<char>)
      requires Valid() && n == |digits| <= t.Length && t != buf
      requires forall k :: 0 <= k < n ==> t[k] == digits[n - 1 - k]
      modifies this, buf
      ensures Valid() && text == old(text) + digits
    {
      var i := n;
      while i > 0
        invariant 0 <= i <= n && Valid() && text == old(text) + digits[..n - i]
        invariant forall k :: 0 <= k < n ==> t[k] == digits[n - 1 - k]
      {
        i := i - 1;
        Put(t[i]);
        assert digits[..n - i - 1] + [digits[n - i - 1]] == digits[..n - i];
      }
      assert digits[..n] == digits;
    }
  }

  /** The last digit is the remainder, the ones before it are the quotient's. */
  lemma LastDigit(v: nat, base: nat, upper: bool)
    requires base == 10 || base == 16
    ensures var s := Digits(v, base, upper);
      && s[|s| - 1] == DigitChar(v % base, upper)
      && (v / base == 0 ==> |s| == 1)
      && (v / base != 0 ==> |s| > 1 && s[..|s| - 1] == Digits(v / base, base, upper))
  {
  }

  function Pow10(n: nat): nat {
    if n == 0 then 1 else 10 * Pow10(n - 1)
  }

  /** A number below 10^n has at most n digits. */
  lemma {:induction false} DigitCount(v: nat, base: nat, upper: bool, n: nat)
    requires (base == 10 || base == 16) && v < Pow10(n) && n >= 1
    ensures |Digits(v, base, upper)| <= n
  {
    if v >= base {
      assert v / base <= v / 10;
      assert n >= 2;
      DigitCount(v / base, base, upper, n - 1);
    }
  }

  lemma DigitsFit(v: nat, base: nat, upper: bool, n: nat)
    requires (base == 10 || base == 16) && v < WORD_LIMIT && n == 20
    ensures |Digits(v, base, upper)| <= 20
  {
    assert Pow10(4) == 10000;
    assert Pow10(8) == 1_0000_0000;
    assert Pow10(12) == 1_0000_0000_0000;
    assert Pow10(16) == 1_0000_0000_0000_0000;
    assert Pow10(20) == 1_0000_0000_0000_0000_0000;
    DigitCount(v, base, upper, 20);
  }

  // ---------------------------------------------------------------- parsing

  /** A C string: some character ends it, and all have codes below 256. */
  ghost predicate CString(s: seq<char>) {
    NUL in s && forall i :: 0 <= i < |s| ==> (s[i] as int) < 256
  }

  predicate IsSpace(c: char) {
    c == ' ' || '\t' <= c <= '\r'
  }

  /** The value strtoll gives a character as a digit; letters fold to lower case by setting
      bit 5, and 99 stands for no digit. */
  function DigitValue(c: char): nat {
    var u := c as int;
    if 0 <= u - 48 < 10 then u - 48
    else if 0 <= Or(u, 32) - 97 < 26 then Or(u, 32) - 97 + 10
    else 99
  }

  /** First position at or after i that does not hold white space. */
  function SkipSpaces(s: seq<char>, i: nat): (r: nat)
    requires i <= |s|
    ensures i <= r <= |s|
    decreases |s| - i
  {
    if i < |s| && IsSpace(s[i]) then SkipSpaces(s, i + 1) else i
  }

  /** The accumulated value, modulo 2^64, and the position of the first character that is not
      a digit of the base. */
  function ParseDigits(s: seq<char>, i: nat, base: nat, acc: nat): (r: (nat, nat))
    requires i <= |s|
    ensures i <= r.1 <= |s|
    ensures r.1 < |s| ==> DigitValue(s[r.1]) >= base
    decreases |s| - i
  {
    if i < |s| && DigitValue(s[i]) < base
    then ParseDigits(s, i + 1, base, (acc * base + DigitValue(s[i])) % WORD_LIMIT)
    else (acc, i)
  }

  function CharAt(s: seq<char>, i: nat): char {
    if i < |s| then s[i] else NUL
  }

  /** The base after looking at a prefix, and how far the prefix reaches. */
  function Prefix(s: seq<char>, p: nat, base: nat): (nat, nat) {
    if (base == 0 || base == 16) && CharAt(s, p) == '0' && Or(CharAt(s, p + 1) as int, 32) == 120 then
      (16, if CharAt(s, p + 2) != NUL then 2 else 1)
    else if base == 0 then (if CharAt(s, p) == '0' then 8 else 10, 0)
    else (base, 0)
  }

  /** Position after white space and a sign. */
  function AfterSign(s: seq<char>): nat {
    var i := SkipSpaces(s, 0);
    if CharAt(s, i) == '-' || CharAt(s, i) == '+' then i + 1 else i
  }

  predicate Negative(s: seq<char>) {
    CharAt(s, SkipSpaces(s, 0)) == '-'
  }

  /** The value and end position strtoll returns. */
  function Strtoll(s: seq<char>, base: nat): (int, nat) {
    var p := AfterSign(s);
    var (b, skip) := Prefix(s, p, base);
    if p + skip > |s| then (0, 0)
    else
      var (acc, end) := ParseDigits(s, p + skip, b, 0);
      (if Negative(s) then ToInt64(-ToInt64(acc)) else ToInt64(acc), if end > p + skip then end else 0)
  }

  /** Setting bit 5 folds upper-case letters to lower case, and maps nothing else to a letter. */
  lemma FoldCase(u: nat)
    requires u < 256
    ensures Or(u, 32) == if u / 32 % 2 == 1 then u else u + 32
    ensures 0 <= Or(u, 32) - 97 < 26 <==> 65 <= u <= 90 || 97 <= u <= 122
  {
    hide Or;
    OrPow2(u, 5);
  }

  /** Or with a power of two sets that bit. */
  lemma {:induction false} OrPow2(x: nat, k: nat)
    ensures Or(x, Pow2(k)) == if x / Pow2(k) % 2 == 1 then x else x + Pow2(k)
  {
    if k == 0 {
      OrOne(x);
    } else {
      hide Or;
      var p := Pow2(k - 1);
      OrPow2(x / 2, k - 1);
      DivDouble(x, p);
      OrEven(x, p);
    }
  }

  lemma OrEven(x: nat, y: nat)
    requires y > 0
    ensures Or(x, 2 * y) == 2 * Or(x / 2, y) + x % 2
  {
  }

  lemma DivDouble(x: nat, d: nat)
    requires d > 0
    ensures x / (2 * d) == x / 2 / d
  {
    ModDouble(x, d);
    var h := x / 2;
    assert h == d * (h / d) + h % d;
    assert x == (2 * d) * (h / d) + (2 * (h % d) + x % 2);
    DivModUnique(x, 2 * d, h / d, 2 * (h % d) + x % 2);
  }

  /** skip_ws_sign */
  method SkipWsSign(s: seq<char>) returns (p: nat, neg: bool)
    requires CString(s)
    ensures p == AfterSign(s) && neg == Negative(s) && p < |s| && NUL in s[p..]
  {
    p := 0;
    while IsSpace(s[p])
      invariant 0 <= p < |s| && NUL in s[p..] && SkipSpaces(s, 0) == SkipSpaces(s, p)
      decreases |s| - p
    {
      NulAhead(s, p);
      p := p + 1;
    }
    neg := s[p] == '-';
    if s[p] == '+' || s[p] == '-' {
      NulAhead(s, p);
      p := p + 1;
    }
  }

  /** The base prefix: 0x for 16, and for base 0 also a leading 0 for 8. */
  method ReadPrefix(s: seq<char>, base: nat, p: nat) returns (b: nat, q: nat)
    requires CString(s) && p < |s| && NUL in s[p..]
    ensures q >= p && (b, q - p) == Prefix(s, p, base) && q < |s| && NUL in s[q..]
  {
    hide Or;
    b, q := base, p;
    if (base == 0 || base == 16) && s[p] == '0' {
      NulAhead(s, p);
      if Or(s[p + 1] as int, 32) == 120 {
        FoldCase(s[p + 1] as int);
        NulAhead(s, p + 1);
        b, q := 16, p + (if s[p + 2] != NUL then 2 else 1);
      } else if base == 0 {
        b := 8;
      }
    } else if base == 0 {
      b := 10;
    }
  }

  /** strtoll of a C string. */
  method StrToLongLong(s: seq<char>, base: nat) returns (value: int, end: nat)
    requires CString(s) && base <= 36
    ensures (value, end) == Strtoll(s, base)
  {
    hide ToInt64, CString, Or, Prefix, AfterSign, Negative;
    var p, neg := SkipWsSign(s);
    var b, q := ReadPrefix(s, base, p);
    PrefixBase(s, p, base);
    var acc := 0;
    end := q;
    while true
      invariant q <= end < |s| && NUL in s[end..] && 0 <= acc < WORD_LIMIT
      invariant ParseDigits(s, q, b, 0) == ParseDigits(s, end, b, acc)
      decreases |s| - end
    {
      var u := s[end] as int;
      var d;
      if 0 <= u - 48 < 10 {
        d := u - 48;
      } else if 0 <= Or(u, 32) - 97 < 26 {
        d := Or(u, 32) - 97 + 10;
      } else {
        break;
      }
      if d >= b {
        break;
      }
      NotADigit();
      NulAhead(s, end);
      acc := (acc * b + d) % WORD_LIMIT;
      end := end + 1;
    }
    value := if neg then ToInt64(-ToInt64(acc)) else ToInt64(acc);
    end := if end > q then end else 0;
  }

  // ---------------------------------------------------------------- the value parsed

  /** The number whose digits in the base stand at i up to j. */
  function Positional(s: seq<char>, i: nat, j: nat, base: nat): nat
    requires i <= j <= |s|
  {
    if i == j then 0 else Positional(s, i, j - 1, base) * base + DigitValue(s[j - 1])
  }

  predicate AllDigits(s: seq<char>, i: nat, j: nat, base: nat)
    requires i <= j <= |s|
  {
    forall k :: i <= k < j ==> DigitValue(s[k]) < base
  }

  /** Everything before the end is a digit of the base. */
  lemma {:induction false} DigitsBeforeEnd(s: seq<char>, i: nat, base: nat, acc: nat)
    requires i <= |s|
    ensures AllDigits(s, i, ParseDigits(s, i, base, acc).1, base)
    decreases |s| - i
  {
    hide DigitValue;
    if i < |s| && DigitValue(s[i]) < base {
      DigitsBeforeEnd(s, i + 1, base, (acc * base + DigitValue(s[i])) % WORD_LIMIT);
    }
  }

  lemma ModStep(x: nat, base: nat, d: nat)
    ensures (x % WORD_LIMIT * base + d) % WORD_LIMIT == (x * base + d) % WORD_LIMIT
  {
    var q, r := x / WORD_LIMIT, x % WORD_LIMIT;
    var y := r * base + d;
    assert x * base == (WORD_LIMIT * q) * base + r * base;
    assert (WORD_LIMIT * q) * base == WORD_LIMIT * (q * base);
    DivModUnique(x * base + d, WORD_LIMIT, q * base + y / WORD_LIMIT, y % WORD_LIMIT);
  }

  /** Having read the digits up to m, the accumulator holds their number modulo 2^64. */
  lemma {:induction false} AccumulatorIs(s: seq<char>, i: nat, m: nat, base: nat)
    requires i <= m <= |s| && AllDigits(s, i, m, base)
    ensures ParseDigits(s, i, base, 0) == ParseDigits(s, m, base, Positional(s, i, m, base) % WORD_LIMIT)
    decreases m - i
  {
    hide DigitValue, ParseDigits;
    if i < m {
      var v := Positional(s, i, m - 1, base);
      AccumulatorIs(s, i, m - 1, base);
      ModStep(v, base, DigitValue(s[m - 1]));
      ParseStep(s, m - 1, base, v % WORD_LIMIT);
    }
  }

  lemma ParseStep(s: seq<char>, i: nat, base: nat, acc: nat)
    requires i < |s| && DigitValue(s[i]) < base
    ensures ParseDigits(s, i, base, acc) == ParseDigits(s, i + 1, base, (acc * base + DigitValue(s[i])) % WORD_LIMIT)
  {
  }

  /** strtoll reads the longest run of digits after white space, sign and prefix, in any base, and
      returns the number they stand for, negated after a minus sign, modulo 2^64; with no digit the
      end pointer goes back to the start. */
  lemma StrtollValue(s: seq<char>, base: nat)
    requires CString(s) && base <= 36
    ensures var (b, skip) := Prefix(s, AfterSign(s), base);
      var start := AfterSign(s) + skip;
      && start < |s|
      && var end := ParseDigits(s, start, b, 0).1;
      && end < |s| && AllDigits(s, start, end, b) && DigitValue(s[end]) >= b
      && Strtoll(s, base) ==
           (ToInt64(Signed(Positional(s, start, end, b), Negative(s))), if end > start then end else 0)
  {
    hide AfterSign, Prefix, ParseDigits, ToInt64, DigitValue, Positional, Negative;
    StartInside(s, base);
    var (b, skip) := Prefix(s, AfterSign(s), base);
    var start := AfterSign(s) + skip;
    DigitsBeforeEnd(s, start, b, 0);
    var end := ParseDigits(s, start, b, 0).1;
    AccumulatorIs(s, start, end, b);
    var v := Positional(s, start, end, b);
    EndIs(s, start, end, b, v % WORD_LIMIT);
    SignedModulo(v, Negative(s));
  }

  lemma SignedModulo(v: nat, neg: bool)
    ensures var acc := v % WORD_LIMIT;
      (if neg then ToInt64(-ToInt64(acc)) else ToInt64(acc)) == ToInt64(Signed(v, neg))
  {
    hide ToInt64;
    var q, acc := v / WORD_LIMIT, v % WORD_LIMIT;
    NegateWraps(acc);
    assert v == acc + WORD_LIMIT * q;
    ToInt64Periodic(acc, q);
    ToInt64Periodic(-(acc as int), -(q as int));
  }

  lemma ToInt64Periodic(x: int, k: int)
    ensures ToInt64(x + WORD_LIMIT * k) == ToInt64(x)
  {
    var y := x + 0x8000_0000_0000_0000;
    DivModUnique(y + WORD_LIMIT * k, WORD_LIMIT, k + y / WORD_LIMIT, y % WORD_LIMIT);
  }

  /** Digits stop at the terminator at the latest. */
  lemma EndIs(s: seq<char>, start: nat, end: nat, b: nat, acc: nat)
    requires start <= end <= |s| && b <= 36 && NUL in s[start..] && AllDigits(s, start, end, b)
    requires ParseDigits(s, start, b, 0) == ParseDigits(s, end, b, acc) && ParseDigits(s, start, b, 0).1 == end
    ensures end < |s| && DigitValue(s[end]) >= b && ParseDigits(s, end, b, acc) == (acc, end)
  {
    hide DigitValue;
    var k :| 0 <= k < |s[start..]| && s[start..][k] == NUL;
    assert s[start + k] == NUL;
    NotADigit();
  }

  /** White space, sign and prefix end before the terminator. */
  lemma StartInside(s: seq<char>, base: nat)
    requires CString(s) && base <= 36
    ensures var (b, skip) := Prefix(s, AfterSign(s), base);
      b <= 36 && AfterSign(s) + skip < |s| && NUL in s[AfterSign(s) + skip..]
  {
    hide DigitValue, Or, SkipSpaces;
    SpacesInside(s, 0);
    var p := SkipSpaces(s, 0);
    if s[p] == '-' || s[p] == '+' { NulAhead(s, p); }
    p := AfterSign(s);
    if s[p] == '0' {
      NulAhead(s, p);
      FoldCase(s[p + 1] as int);
      if s[p + 1] != NUL { NulAhead(s, p + 1); }
    }
  }

  lemma {:induction false} SpacesInside(s: seq<char>, i: nat)
    requires i < |s| && NUL in s[i..]
    ensures SkipSpaces(s, i) < |s| && NUL in s[SkipSpaces(s, i)..]
    decreases |s| - i
  {
    if IsSpace(s[i]) {
      NulAhead(s, i);
      SpacesInside(s, i + 1);
    }
  }

  lemma PrefixBase(s: seq<char>, p: nat, base: nat)
    requires base <= 36
    ensures Prefix(s, p, base).0 <= 36
  {
  }

  lemma NotADigit()
    ensures DigitValue(NUL) == 99
  {
    FoldCase(0);
  }

  lemma NulAhead(s: seq<char>, i: nat)
    requires i < |s| && NUL in s[i..] && s[i] != NUL
    ensures i + 1 < |s| && NUL in s[i + 1..]
  {
    assert s[i..] == [s[i]] + s[i + 1..];
  }

  // ---------------------------------------------------------------- the round trip

  /** A printed digit parses as itself and is neither space, sign nor the x of a prefix. */
  lemma DigitCharFacts(d: nat, upper: bool)
    requires d < 16
    ensures var c := DigitChar(d, upper);
      && DigitValue(c) == d && !IsSpace(c) && c != '+' && c != '-' && (c as int) < 256 && Or(c as int, 32) != 120
  {
    hide Or;
    FoldCase(DigitChar(d, upper) as int);
  }

  /** Every character of the digits is a printed digit. */
  lemma {:induction false} DigitsAreDigits(v: nat, base: nat, upper: bool, k: nat)
    requires (base == 10 || base == 16) && k < |Digits(v, base, upper)|
    ensures exists d: nat :: d < 16 && Digits(v, base, upper)[k] == DigitChar(d, upper)
  {
    if v < base {
      assert Digits(v, base, upper)[k] == DigitChar(v, upper);
    } else if k < |Digits(v, base, upper)| - 1 {
      DigitsAreDigits(v / base, base, upper, k);
    } else {
      assert Digits(v, base, upper)[k] == DigitChar(v % base, upper);
    }
  }

  lemma {:induction false} SpacesSkipped(s: seq<char>, i: nat, n: nat)
    requires i + n < |s| && (forall k :: i <= k < i + n ==> s[k] == ' ') && !IsSpace(s[i + n])
    ensures SkipSpaces(s, i) == i + n
    decreases n
  {
    if n > 0 { SpacesSkipped(s, i + 1, n - 1); }
  }

  lemma {:induction false} ZerosParsed(s: seq<char>, i: nat, n: nat, base: nat)
    requires i + n <= |s| && base >= 1 && forall k :: i <= k < i + n ==> s[k] == '0'
    ensures ParseDigits(s, i, base, 0) == ParseDigits(s, i + n, base, 0)
    decreases n
  {
    if n > 0 { ZerosParsed(s, i + 1, n - 1, base); }
  }

  /** Parsing the digits of v from 0 accumulates v. */
  lemma {:induction false} DigitsParsed(s: seq<char>, i: nat, v: nat, base: nat, upper: bool)
    requires (base == 10 || base == 16) && v < WORD_LIMIT
    requires i + |Digits(v, base, upper)| <= |s| && s[i..i + |Digits(v, base, upper)|] == Digits(v, base, upper)
    ensures ParseDigits(s, i, base, 0) == ParseDigits(s, i + |Digits(v, base, upper)|, base, v)
    decreases v
  {
    hide Digits, DigitValue, DigitChar, ParseDigits, IsSpace, Or;
    LastDigit(v, base, upper);
    DigitCharFacts(v % base, upper);
    var n := |Digits(v, base, upper)|;
    var last := i + n - 1;
    assert s[last] == Digits(v, base, upper)[n - 1];
    if v / base != 0 {
      assert s[i..last] == s[i..i + n][..n - 1];
      assert v / base < v;
      DigitsParsed(s, i, v / base, base, upper);
    }
    DivModEquation(v, base);
    ParseOne(s, last, v / base, base, v % base);
  }

  lemma DivModEquation(v: nat, base: nat)
    requires base > 0
    ensures v / base * base + v % base == v
  {
  }

  lemma ParseOne(s: seq<char>, i: nat, acc: nat, base: nat, d: nat)
    requires i < |s| && DigitValue(s[i]) == d < base && acc * base + d < WORD_LIMIT
    ensures ParseDigits(s, i, base, acc) == ParseDigits(s, i + 1, base, acc * base + d)
  {
    hide DigitValue, ParseDigits;
    ParseStep(s, i, base, acc);
    var v: nat := acc * base + d;
    assert v % WORD_LIMIT == v;
  }

  /** The shape of printed text: spaces, a sign, zeros and digits, never both kinds of fill. */
  lemma TextShape(v: nat, neg: bool, base: nat, upper: bool, w: int, zero: bool) returns (a: nat, b: nat)
    requires base == 10 || base == 16
    ensures NumText(v, neg, base, upper, w, zero) ==
      Repeat(' ', a) + (if neg then ['-'] else []) + Repeat('0', b) + Digits(v, base, upper)
  {
    hide Digits;
    var digits := Digits(v, base, upper);
    var pad := w - |digits| - (if neg then 1 else 0);
    a, b := 0, 0;
    if zero && neg && w > |digits| + 1 {
      b := w - |digits|;
      assert Repeat(' ', 0) == [];
    } else if zero && pad > 0 {
      b := pad;
      assert !neg;
      assert Repeat(' ', 0) == [];
    } else if pad > 0 {
      a := pad;
      assert Repeat('0', 0) == [];
    } else {
      assert Repeat(if zero then '0' else ' ', pad) == Repeat(' ', 0) == Repeat('0', 0) == [];
    }
  }

  /** Parsing text of the printed shape. */
  lemma ShapeParsed(s: seq<char>, a: nat, neg: bool, b: nat, v: nat, base: nat, upper: bool)
    requires (base == 10 || base == 16) && v < WORD_LIMIT
    requires var p := a + (if neg then 1 else 0);
      var n := p + b + |Digits(v, base, upper)|;
      && n < |s| && s[n] == NUL
      && (forall k :: 0 <= k < a ==> s[k] == ' ') && (neg ==> s[a] == '-')
      && (forall k :: p <= k < p + b ==> s[k] == '0')
      && s[p + b..n] == Digits(v, base, upper)
    ensures Strtoll(s, base) == (ToInt64(Signed(v, neg)), a + (if neg then 1 else 0) + b + |Digits(v, base, upper)|)
  {
    hide CharAt, IsSpace, Digits, Or, ParseDigits, SkipSpaces, AfterSign, Negative, Prefix, ToInt64;
    var p := a + (if neg then 1 else 0);
    var digits := Digits(v, base, upper);
    var n := p + b + |digits|;
    FrontChars(s, p, b, v, base, upper);
    SignParsed(s, a, neg);
    NoPrefix(s, p, base);
    ZerosParsed(s, p, b, base);
    DigitsParsed(s, p + b, v, base, upper);
    ParseStops(s, n, base, v);
    NegateWraps(v);
  }

  lemma NegateWraps(v: nat)
    ensures ToInt64(-ToInt64(v)) == ToInt64(-(v as int))
  {
  }

  lemma SignParsed(s: seq<char>, a: nat, neg: bool)
    requires a + (if neg then 1 else 0) < |s| && (forall k :: 0 <= k < a ==> s[k] == ' ')
    requires if neg then s[a] == '-' else !IsSpace(s[a]) && s[a] != '-' && s[a] != '+'
    ensures AfterSign(s) == a + (if neg then 1 else 0) && Negative(s) == neg
  {
    SpacesSkipped(s, 0, a);
  }

  lemma NoPrefix(s: seq<char>, p: nat, base: nat)
    requires (base == 10 || base == 16) && p + 1 < |s| && Or(s[p + 1] as int, 32) != 120
    ensures Prefix(s, p, base) == (base, 0)
  {
  }

  lemma ParseStops(s: seq<char>, n: nat, base: nat, v: nat)
    requires n < |s| && s[n] == NUL && base <= 36
    ensures ParseDigits(s, n, base, v) == (v, n)
  {
    NotADigit();
  }

  /** The first characters after the sign are printed digits or the terminator. */
  lemma FrontChars(s: seq<char>, p: nat, b: nat, v: nat, base: nat, upper: bool)
    requires base == 10 || base == 16
    requires var n := p + b + |Digits(v, base, upper)|;
      n < |s| && s[n] == NUL && (forall k :: p <= k < p + b ==> s[k] == '0') && s[p + b..n] == Digits(v, base, upper)
    ensures p < |s| && !IsSpace(s[p]) && s[p] != '-' && s[p] != '+'
    ensures p + 1 < |s| && Or(s[p + 1] as int, 32) != 120
  {
    hide Or;
    FrontChar(s, p, b, v, base, upper, p);
    if p + 1 < p + b + |Digits(v, base, upper)| { FrontChar(s, p, b, v, base, upper, p + 1); } else { FoldCase(0); }
  }

  lemma FrontChar(s: seq<char>, p: nat, b: nat, v: nat, base: nat, upper: bool, k: nat)
    requires base == 10 || base == 16
    requires var n := p + b + |Digits(v, base, upper)|;
      p <= k < n <= |s| && (forall k :: p <= k < p + b ==> s[k] == '0') && s[p + b..n] == Digits(v, base, upper)
    ensures !IsSpace(s[k]) && s[k] != '-' && s[k] != '+' && Or(s[k] as int, 32) != 120
  {
    if k < p + b {
      DigitCharFacts(0, upper);
    } else {
      DigitsAreDigits(v, base, upper, k - p - b);
      var d: nat :| d < 16 && Digits(v, base, upper)[k - p - b] == DigitChar(d, upper);
      assert s[k] == s[p + b..][k - p - b];
      DigitCharFacts(d, upper);
    }
  }

  /** Printing then parsing gives the value back, modulo 2^64 and at the end of the text: for
      every magnitude, width and padding, in base 10 with either sign and in base 16. */
  lemma PrintThenParse(v: nat, neg: bool, base: nat, upper: bool, w: int, zero: bool, tail: seq<char>)
    requires (base == 10 || base == 16) && v < WORD_LIMIT && |tail| > 0 && tail[0] == NUL
    ensures var text := NumText(v, neg, base, upper, w, zero);
      Strtoll(text + tail, base) == (ToInt64(Signed(v, neg)), |text|)
  {
    hide Digits, Strtoll, NumText, Signed, ToInt64;
    var text := NumText(v, neg, base, upper, w, zero);
    var a, b := TextShape(v, neg, base, upper, w, zero);
    var s := text + tail;
    var p := a + (if neg then 1 else 0);
    assert s[p + b..|text|] == Digits(v, base, upper);
    ShapeParsed(s, a, neg, b, v, base, upper);
  }

  /** In particular %d of every long long parses back to it, and %x of every unsigned 64-bit
      value to the same bits. */
  lemma SignedRoundTrip(x: int, w: int, zero: bool, tail: seq<char>)
    requires -0x8000_0000_0000_0000 <= x < 0x8000_0000_0000_0000 && |tail| > 0 && tail[0] == NUL
    ensures var text := NumText(if x < 0 then -x else x, x < 0, 10, false, w, zero);
      Strtoll(text + tail, 10) == (x, |text|)
  {
    PrintThenParse(if x < 0 then -x else x, x < 0, 10, false, w, zero, tail);
  }

  lemma HexRoundTrip(v: nat, upper: bool, w: int, zero: bool, tail: seq<char>)
    requires v < WORD_LIMIT && |tail| > 0 && tail[0] == NUL
    ensures var text := NumText(v, false, 16, upper, w, zero);
      var (x, end) := Strtoll(text + tail, 16);
      (x - v) % WORD_LIMIT == 0 && end == |text|
  {
    PrintThenParse(v, false, 16, upper, w, zero, tail);
  }
}
