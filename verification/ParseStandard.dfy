/** strtoll against section 7.22.1.4 of the C11 standard: the subject sequence is the longest text of the
    expected form, a number out of range saturates, and ERANGE is reported. */
module ParseStandard {
  import opened Bits
  import opened Numbers

  const INT64_LEAST := -0x8000_0000_0000_0000
  const INT64_GREATEST := 0x7FFF_FFFF_FFFF_FFFF

  datatype Parsed = Parsed(value: int, end: nat, outOfRange: bool)

  predicate FitsInt64(x: int) {
    INT64_LEAST <= x <= INT64_GREATEST
  }

  function Saturated(x: int, end: nat): Parsed {
    var value := if x < INT64_LEAST then INT64_LEAST else if x > INT64_GREATEST then INT64_GREATEST else x;
    Parsed(value, end, !FitsInt64(x))
  }

  /** The text at p up to e, behind white space and sign, has the expected form: digits of base b from
      `start`. For base 0 it is an integer constant; for base 16 a 0x in front is optional. */
  predicate Numeral(s: seq<char>, p: nat, base: nat, b: nat, start: nat, e: nat) {
    && p <= start < e <= |s| && AllDigits(s, start, e, b)
    && if start == p then b == (if base != 0 then base else if s[p] == '0' then 8 else 10)
       else
         && start == p + 2 && b == 16 && (base == 0 || base == 16)
         && s[p] == '0' && (s[p + 1] == 'x' || s[p + 1] == 'X')
  }

  ghost predicate Longest(s: seq<char>, p: nat, base: nat, b: nat, start: nat, e: nat) {
    && Numeral(s, p, base, b, start, e)
    && forall b': nat, start': nat, e': nat :: Numeral(s, p, base, b', start', e') ==> e' <= e
  }

  /** White space in the C locale: tab, line feed, vertical tab, form feed, carriage return and space. */
  predicate IsWhite(c: char) {
    c as int in {9, 10, 11, 12, 13, 32}
  }

  /** Behind the white space in front and at most one sign the subject sequence starts at p. */
  ghost predicate SubjectAt(s: seq<char>, p: nat, neg: bool) {
    exists w: nat ::
      && w <= p <= |s| && (forall k :: 0 <= k < w ==> IsWhite(s[k])) && (w < |s| ==> !IsWhite(s[w]))
      && (if w < |s| && (s[w] == '+' || s[w] == '-') then p == w + 1 && neg == (s[w] == '-') else p == w && !neg)
  }

  /** What the standard lets strtoll return for a number that starts at p, behind white space and sign. */
  ghost predicate StandardFrom(s: seq<char>, base: nat, p: nat, neg: bool, r: Parsed) {
    if exists b: nat, start: nat, e: nat :: Numeral(s, p, base, b, start, e) then
      exists b: nat, start: nat, e: nat ::
        Longest(s, p, base, b, start, e) && r == Saturated(Signed(Positional(s, start, e, b), neg), e)
    else r == Parsed(0, 0, false)
  }

  /** What the standard lets strtoll return. */
  ghost predicate Standard(s: seq<char>, base: nat, r: Parsed) {
    exists p: nat, neg: bool :: SubjectAt(s, p, neg) && StandardFrom(s, base, p, neg, r)
  }

  lemma {:induction false} SpacesAreWhite(s: seq<char>, i: nat, k: nat)
    requires i <= k < |s|
    ensures k < SkipSpaces(s, i) ==> IsWhite(s[k])
    ensures k == SkipSpaces(s, i) ==> !IsWhite(s[k])
    decreases |s| - i
  {
    if IsSpace(s[i]) && i < k { SpacesAreWhite(s, i + 1, k); }
  }

  lemma CStringSpaces(s: seq<char>)
    requires CString(s)
    ensures SkipSpaces(s, 0) < |s|
  {
    assert s[0..] == s;
    SpacesInside(s, 0);
  }

  /** The subject sequence starts where the code looks for it, with the sign the code has seen. */
  lemma SubjectIs(s: seq<char>, p: nat, neg: bool)
    requires CString(s)
    ensures SubjectAt(s, p, neg) <==> p == AfterSign(s) && neg == Negative(s)
  {
    hide CString, SkipSpaces;
    var q := SkipSpaces(s, 0);
    assert q < |s| by { CStringSpaces(s); }
    forall k | 0 <= k < |s| ensures (k < q ==> IsWhite(s[k])) && (k == q ==> !IsWhite(s[k])) {
      SpacesAreWhite(s, 0, k);
    }
  }

  /** A character's digit value: 0 to 9, then the letters in either case. */
  lemma DigitValueIs(c: char)
    requires (c as int) < 256
    ensures DigitValue(c) ==
      if '0' <= c <= '9' then c as int - '0' as int
      else if 'a' <= c <= 'z' then c as int - 'a' as int + 10
      else if 'A' <= c <= 'Z' then c as int - 'A' as int + 10
      else 99
  {
    hide Or;
    FoldCase(c as int);
  }

  /** The x of a prefix in either case. */
  lemma FoldsToX(c: char)
    requires (c as int) < 256
    ensures Or(c as int, 32) == 120 <==> c == 'x' || c == 'X'
  {
    hide Or;
    FoldCase(c as int);
  }

  /** A 0x is in front that the base allows. */
  predicate HexPrefix(s: seq<char>, base: nat) {
    var p := AfterSign(s);
    (base == 0 || base == 16) && CharAt(s, p) == '0' && (CharAt(s, p + 1) == 'x' || CharAt(s, p + 1) == 'X')
  }

  predicate HexDigitFollows(s: seq<char>, base: nat) {
    DigitValue(CharAt(s, AfterSign(s) + 2)) < 16
  }

  /** The base, first digit and end of the digits that the code reads. */
  function Read(s: seq<char>, base: nat): (r: (nat, nat, nat))
    requires CString(s) && base <= 36
    ensures r.1 <= r.2 < |s| && AllDigits(s, r.1, r.2, r.0) && DigitValue(s[r.2]) >= r.0
    ensures Strtoll(s, base) ==
      (ToInt64(Signed(Positional(s, r.1, r.2, r.0), Negative(s))), if r.2 > r.1 then r.2 else 0)
  {
    StrtollValue(s, base);
    var (b, skip) := Prefix(s, AfterSign(s), base);
    var start := AfterSign(s) + skip;
    (b, start, ParseDigits(s, start, b, 0).1)
  }

  /** The prefix is passed over, the digits are read in the base it gives. */
  lemma ReadStart(s: seq<char>, base: nat)
    requires CString(s) && base <= 36
    ensures var (b, start, end) := Read(s, base);
      var p := AfterSign(s);
      && p < |s|
      && if HexPrefix(s, base) then
           b == 16 && start == (if CharAt(s, p + 2) == NUL then p + 1 else p + 2)
         else start == p && b == if base != 0 then base else if s[p] == '0' then 8 else 10
  {
    hide Or, AfterSign, ParseDigits, DigitValue;
    StartInside(s, base);
    var p := AfterSign(s);
    FoldsToX(CharAt(s, p + 1));
  }

  /** What the code reads has the expected form, unless it reads nothing. */
  lemma ReadIsNumeral(s: seq<char>, base: nat)
    requires CString(s) && base <= 36
    ensures var (b, start, end) := Read(s, base);
      end > start ==> Numeral(s, AfterSign(s), base, b, start, end) && (HexPrefix(s, base) ==> HexDigitFollows(s, base))
  {
    hide AfterSign, Read, DigitValue;
    ReadStart(s, base);
    DigitValueIs('x');
    DigitValueIs('X');
  }

  /** When the code reads nothing behind a prefix, the 0 of the prefix has the expected form. */
  lemma ZeroIsNumeral(s: seq<char>, base: nat)
    requires CString(s) && base <= 36 && HexPrefix(s, base) && Read(s, base).1 == Read(s, base).2
    ensures var p := AfterSign(s);
      && p < |s| && Numeral(s, p, base, if base == 0 then 8 else base, p, p + 1)
      && !HexDigitFollows(s, base)
  {
    hide AfterSign, Read, Or;
    ReadStart(s, base);
    NotADigit();
  }

  /** A 0 alone stands for 0. */
  lemma ZeroNumber(s: seq<char>, base: nat)
    requires CString(s) && base <= 36 && HexPrefix(s, base) && AfterSign(s) < |s|
    ensures var p := AfterSign(s);
      Signed(Positional(s, p, p + 1, if base == 0 then 8 else base), Negative(s)) == 0
  {
    hide AfterSign, Or;
    var p := AfterSign(s);
    assert Positional(s, p, p, if base == 0 then 8 else base) == 0;
  }

  /** Every other text of the expected form is shorter than what the code reads. If the code reads nothing,
      it is the 0 of a prefix. */
  lemma NumeralsRead(s: seq<char>, base: nat, b: nat, start: nat, e: nat)
    requires CString(s) && base <= 36 && Numeral(s, AfterSign(s), base, b, start, e)
    ensures var r := Read(s, base);
      if r.2 > r.1 then e <= r.2 && (e == r.2 ==> (b, start, e) == r)
      else
        && HexPrefix(s, base) && !HexDigitFollows(s, base)
        && (b, start, e) == (if base == 0 then 8 else base, AfterSign(s), AfterSign(s) + 1)
  {
    hide AfterSign, Read, DigitValue;
    ReadStart(s, base);
    DigitValueIs('x');
    DigitValueIs('X');
    NotADigit();
    assert AllDigits(s, start, e, b) && DigitValue(s[start]) < b;
  }

  /** What the standard says of each string: the number the code reads, saturated, except that a prefix with
      no hexadecimal digit behind it counts as 0 followed by other text. */
  function Required(s: seq<char>, base: nat): Parsed
    requires CString(s) && base <= 36
  {
    var (b, start, end) := Read(s, base);
    if HexPrefix(s, base) && !HexDigitFollows(s, base) then Parsed(0, AfterSign(s) + 1, false)
    else Saturated(Signed(Positional(s, start, end, b), Negative(s)), if end > start then end else 0)
  }

  lemma StandardIs(s: seq<char>, base: nat, r: Parsed)
    requires CString(s) && base <= 36
    ensures Standard(s, base, r) <==> r == Required(s, base)
  {
    hide CString, StandardFrom, SubjectAt, AfterSign, Negative, Required;
    forall p: nat, neg: bool ensures SubjectAt(s, p, neg) <==> p == AfterSign(s) && neg == Negative(s) {
      SubjectIs(s, p, neg);
    }
    StandardFromIs(s, base, r);
  }

  lemma StandardFromIs(s: seq<char>, base: nat, r: Parsed)
    requires CString(s) && base <= 36
    ensures StandardFrom(s, base, AfterSign(s), Negative(s), r) <==> r == Required(s, base)
  {
    hide AfterSign, Read, Strtoll, Numeral, HexPrefix, HexDigitFollows, Negative;
    var (b, start, end) := Read(s, base);
    var p := AfterSign(s);
    forall b': nat, start': nat, e': nat | Numeral(s, p, base, b', start', e')
      ensures if end > start then e' <= end && (e' == end ==> (b', start', e') == (b, start, end))
        else
          && HexPrefix(s, base) && !HexDigitFollows(s, base)
          && (b', start', e') == (if base == 0 then 8 else base, p, p + 1)
    {
      NumeralsRead(s, base, b', start', e');
    }
    ReadIsNumeral(s, base);
    if end > start {
      assert Longest(s, p, base, b, start, end);
    } else if HexPrefix(s, base) {
      ZeroIsNumeral(s, base);
      assert Longest(s, p, base, if base == 0 then 8 else base, p, p + 1);
      ZeroNumber(s, base);
    }
  }

  /** strtoll returns what the standard says, and rightly reports no error, if and only if the number fits
      long long and a 0x that the base allows has a hexadecimal digit behind it. */
  lemma StrtollStandard(s: seq<char>, base: nat)
    requires CString(s) && base <= 36
    ensures var (b, start, end) := Read(s, base);
      Standard(s, base, Parsed(Strtoll(s, base).0, Strtoll(s, base).1, false)) <==>
        && FitsInt64(Signed(Positional(s, start, end, b), Negative(s)))
        && (HexPrefix(s, base) ==> HexDigitFollows(s, base))
  {
    hide AfterSign, Read, Strtoll, Standard, HexPrefix, HexDigitFollows, Negative;
    StandardIs(s, base, Parsed(Strtoll(s, base).0, Strtoll(s, base).1, false));
    ReadIsNumeral(s, base);
  }

  /** "0xg" in base 16: the code finds no number, the standard reads the 0. */
  lemma HexPrefixAlone()
    ensures var s := ['0', 'x', 'g', NUL];
      Strtoll(s, 16) == (0, 0) && Standard(s, 16, Parsed(0, 1, false))
  {
    var s := ['0', 'x', 'g', NUL];
    DigitValueIs('g');
    FoldsToX('x');
    StandardIs(s, 16, Parsed(0, 1, false));
    hide DigitValue, Or, Standard;
  }

  lemma PrintedCString(v: nat, base: nat, upper: bool)
    requires base == 10 || base == 16
    ensures CString(Digits(v, base, upper) + [NUL])
  {
    hide Digits, Or;
    var s := Digits(v, base, upper) + [NUL];
    forall k | 0 <= k < |s| - 1 ensures (s[k] as int) < 256 {
      DigitsAreDigits(v, base, upper, k);
      var d: nat :| d < 16 && s[k] == DigitChar(d, upper);
      DigitCharFacts(d, upper);
    }
    assert s[|s| - 1] == NUL;
  }

  /** 2^63 in decimal: the code returns the least long long, the standard the greatest and an error. */
  lemma TooLargeWraps()
    ensures var s := Digits(0x8000_0000_0000_0000, 10, false) + [NUL];
      && Strtoll(s, 10) == (INT64_LEAST, |s| - 1)
      && forall r :: Standard(s, 10, r) ==> r.value >= 0 && r.end == |s| - 1
  {
    hide Digits, Strtoll, AfterSign, Standard, Prefix, ParseDigits, Positional, Read, CString;
    var v := 0x8000_0000_0000_0000;
    var s := Digits(v, 10, false) + [NUL];
    assert NumText(v, false, 10, false, 0, false) == Digits(v, 10, false);
    PrintThenParse(v, false, 10, false, 0, false, [NUL]);
    FrontChars(s, 0, 0, v, 10, false);
    SignParsed(s, 0, false);
    PrintedCString(v, 10, false);
    forall r | Standard(s, 10, r) ensures r.value >= 0 && r.end == |s| - 1 {
      StandardIs(s, 10, r);
    }
  }
}
