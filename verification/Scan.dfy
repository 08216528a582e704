/** Word-at-a-time searching of bytes: memchr, strlen, memcmp and strstr. A pointer is an index
    into a sequence of bytes whose first byte lies at address `addr`. */
module Scan {

  type Bytes = seq<bv8>

  /** The little-endian word of eight bytes. */
  function WordOf(b0: bv8, b1: bv8, b2: bv8, b3: bv8, b4: bv8, b5: bv8, b6: bv8, b7: bv8): bv64 {
    (b0 as bv64) | ((b1 as bv64) << 8) | ((b2 as bv64) << 16) | ((b3 as bv64) << 24)
    | ((b4 as bv64) << 32) | ((b5 as bv64) << 40) | ((b6 as bv64) << 48) | ((b7 as bv64) << 56)
  }

  /** A word read from any address. */
  function Load(s: Bytes, i: nat): bv64
    requires i + 8 <= |s|
  {
    WordOf(s[i], s[i + 1], s[i + 2], s[i + 3], s[i + 4], s[i + 5], s[i + 6], s[i + 7])
  }

  predicate Aligned(addr: nat, i: nat) {
    (addr + i) % 8 == 0
  }

  /** A word read that must be aligned. */
  function LoadAligned(s: Bytes, addr: nat, i: nat): bv64
    requires i + 8 <= |s| && Aligned(addr, i)
  {
    Load(s, i)
  }

  /** The bytes of a word that look like zero to the subtract and and-not test. */
  function ZeroMask(w: bv64): bv64 {
    (w - 0x0101_0101_0101_0101) & !w & 0x8080_8080_8080_8080
  }

  /** A byte repeated eight times. */
  function Pattern(c: bv8): bv64 {
    (c as bv64) * 0x0101_0101_0101_0101
  }

  // ---------------------------------------------------------------- specification

  /** First position in [i, j) that holds c, or j: the byte-by-byte scan. */
  function FirstAt(s: Bytes, c: bv8, i: nat, j: nat): (r: nat)
    requires i <= j <= |s|
    ensures i <= r <= j
    ensures forall k :: i <= k < r ==> s[k] != c
    ensures r < j ==> s[r] == c
    decreases j - i
  {
    if i == j || s[i] == c then i else FirstAt(s, c, i + 1, j)
  }

  /** How many of the first n bytes at x in a and y in b agree. */
  function Agreeing(a: Bytes, x: nat, b: Bytes, y: nat, n: nat): (r: nat)
    requires x + n <= |a| && y + n <= |b|
    ensures r <= n
    decreases n
  {
    if n == 0 || a[x] != b[y] then 0 else 1 + Agreeing(a, x + 1, b, y + 1, n - 1)
  }

  ghost predicate Terminated(s: Bytes, p: nat) {
    p <= |s| && FirstAt(s, 0, p, |s|) < |s|
  }

  /** The string at p in s, without its terminator. */
  ghost function StringAt(s: Bytes, p: nat): Bytes
    requires Terminated(s, p)
  {
    s[p..FirstAt(s, 0, p, |s|)]
  }

  ghost predicate OccursAt(h: Bytes, n: Bytes, k: nat) {
    k + |n| <= |h| && h[k..k + |n|] == n
  }

  // ---------------------------------------------------------------- the mask

  /** Byte k of a word, lowest first. */
  function ByteOf(w: bv64, k: nat): bv8 {
    (if k == 0 then w & 0xff
     else if k == 1 then (w >> 8) & 0xff
     else if k == 2 then (w >> 16) & 0xff
     else if k == 3 then (w >> 24) & 0xff
     else if k == 4 then (w >> 32) & 0xff
     else if k == 5 then (w >> 40) & 0xff
     else if k == 6 then (w >> 48) & 0xff
     else (w >> 56) & 0xff) as bv8
  }

  /** The subtract and and-not mask is nonzero exactly when some byte of the word is zero. */
  lemma ZeroMaskExact(w: bv64)
    ensures (ZeroMask(w) != 0) <==> (
      ByteOf(w, 0) == 0 || ByteOf(w, 1) == 0 || ByteOf(w, 2) == 0
      || ByteOf(w, 3) == 0 || ByteOf(w, 4) == 0 || ByteOf(w, 5) == 0
      || ByteOf(w, 6) == 0 || ByteOf(w, 7) == 0)
  {
  }

  lemma BytesOfWord(b0: bv8, b1: bv8, b2: bv8, b3: bv8, b4: bv8, b5: bv8, b6: bv8, b7: bv8)
    ensures var w := WordOf(b0, b1, b2, b3, b4, b5, b6, b7);
      ByteOf(w, 0) == b0 && ByteOf(w, 1) == b1 && ByteOf(w, 2) == b2
      && ByteOf(w, 3) == b3 && ByteOf(w, 4) == b4 && ByteOf(w, 5) == b5
      && ByteOf(w, 6) == b6 && ByteOf(w, 7) == b7
  {
  }

  lemma BytesOfXor(w: bv64, v: bv64)
    ensures
      && (ByteOf(w ^ v, 0) == 0 <==> ByteOf(w, 0) == ByteOf(v, 0))
      && (ByteOf(w ^ v, 1) == 0 <==> ByteOf(w, 1) == ByteOf(v, 1))
      && (ByteOf(w ^ v, 2) == 0 <==> ByteOf(w, 2) == ByteOf(v, 2))
      && (ByteOf(w ^ v, 3) == 0 <==> ByteOf(w, 3) == ByteOf(v, 3))
      && (ByteOf(w ^ v, 4) == 0 <==> ByteOf(w, 4) == ByteOf(v, 4))
      && (ByteOf(w ^ v, 5) == 0 <==> ByteOf(w, 5) == ByteOf(v, 5))
      && (ByteOf(w ^ v, 6) == 0 <==> ByteOf(w, 6) == ByteOf(v, 6))
      && (ByteOf(w ^ v, 7) == 0 <==> ByteOf(w, 7) == ByteOf(v, 7))
  {
  }

  lemma BytesOfPattern(c: bv8, k: nat)
    requires k < 8
    ensures ByteOf(Pattern(c), k) == c
  {
  }

  lemma ByteMatches(w: bv64, c: bv8, k: nat)
    requires k < 8
    ensures ByteOf(w ^ Pattern(c), k) == 0 <==> ByteOf(w, k) == c
  {
    hide Pattern, ByteOf;
    BytesOfXor(w, Pattern(c));
    BytesOfPattern(c, k);
  }

  /** Some byte of the word at i matches exactly when the byte scan finds one among the eight. */
  lemma ScanOfWord(s: Bytes, i: nat, c: bv8)
    requires i + 8 <= |s|
    ensures var w := Load(s, i);
      FirstAt(s, c, i, i + 8) < i + 8 <==> (
      ByteOf(w, 0) == c || ByteOf(w, 1) == c || ByteOf(w, 2) == c || ByteOf(w, 3) == c
      || ByteOf(w, 4) == c || ByteOf(w, 5) == c || ByteOf(w, 6) == c || ByteOf(w, 7) == c)
  {
    hide WordOf, ByteOf, FirstAt;
    BytesOfWord(s[i], s[i + 1], s[i + 2], s[i + 3], s[i + 4], s[i + 5], s[i + 6], s[i + 7]);
    var r := FirstAt(s, c, i, i + 8);
    assert r == i || r == i + 1 || r == i + 2 || r == i + 3 || r == i + 4 || r == i + 5 || r == i + 6 || r >= i + 7;
  }

  /** The mask of memchr is nonzero exactly when the byte scan finds a match among the eight. */
  lemma MatchMask(s: Bytes, i: nat, c: bv8)
    requires i + 8 <= |s|
    ensures ZeroMask(Load(s, i) ^ Pattern(c)) != 0 <==> FirstAt(s, c, i, i + 8) < i + 8
  {
    hide Load, ZeroMask, Pattern, ByteOf, FirstAt;
    var w := Load(s, i);
    ZeroMaskExact(w ^ Pattern(c));
    ScanOfWord(s, i, c);
    forall k: nat | k < 8 ensures ByteOf(w ^ Pattern(c), k) == 0 <==> ByteOf(w, k) == c {
      ByteMatches(w, c, k);
    }
  }

  lemma ZeroPattern(w: bv64)
    ensures w ^ Pattern(0) == w
  {
  }

  /** Words are equal exactly when their bytes are. */
  lemma LoadsEqual(a: Bytes, x: nat, b: Bytes, y: nat)
    requires x + 8 <= |a| && y + 8 <= |b|
    ensures Load(a, x) == Load(b, y) <==> a[x..x + 8] == b[y..y + 8]
  {
    hide WordOf, ByteOf;
    BytesOfWord(a[x], a[x + 1], a[x + 2], a[x + 3], a[x + 4], a[x + 5], a[x + 6], a[x + 7]);
    BytesOfWord(b[y], b[y + 1], b[y + 2], b[y + 3], b[y + 4], b[y + 5], b[y + 6], b[y + 7]);
    EightEqual(a, x, b, y);
  }

  lemma EightEqual(a: Bytes, x: nat, b: Bytes, y: nat)
    requires x + 8 <= |a| && y + 8 <= |b|
    ensures a[x..x + 8] == b[y..y + 8] <==>
      && a[x] == b[y] && a[x + 1] == b[y + 1] && a[x + 2] == b[y + 2] && a[x + 3] == b[y + 3]
      && a[x + 4] == b[y + 4] && a[x + 5] == b[y + 5] && a[x + 6] == b[y + 6] && a[x + 7] == b[y + 7]
  {
    var u, v := a[x..x + 8], b[y..y + 8];
    assert u == [a[x], a[x + 1], a[x + 2], a[x + 3], a[x + 4], a[x + 5], a[x + 6], a[x + 7]];
    assert v == [b[y], b[y + 1], b[y + 2], b[y + 3], b[y + 4], b[y + 5], b[y + 6], b[y + 7]];
    assert u == v ==> u[0] == v[0] && u[1] == v[1] && u[2] == v[2] && u[3] == v[3];
    assert u == v ==> u[4] == v[4] && u[5] == v[5] && u[6] == v[6] && u[7] == v[7];
  }

  // ---------------------------------------------------------------- the searches

  /** One word of memchr: the mask test, then the bytes one by one when it is nonzero. */
  method MatchInWord(s: Bytes, addr: nat, p: nat, c: bv8, pat: bv64) returns (r: int)
    requires p + 8 <= |s| && Aligned(addr, p) && pat == Pattern(c)
    ensures var k := FirstAt(s, c, p, p + 8);
      r == if k < p + 8 then k else -1
  {
    hide Load, ZeroMask, Pattern;
    MatchMask(s, p, c);
    var mask := ZeroMask(LoadAligned(s, addr, p) ^ pat);
    if mask != 0 {
      for i := 0 to 8
        invariant FirstAt(s, c, p, p + 8) >= p + i
      {
        if s[p + i] == c { return p + i; }
      }
    }
    return -1;
  }

  /** memchr; -1 stands for the null pointer. */
  method MemChr(s: Bytes, addr: nat, start: nat, c: bv8, count: nat) returns (r: int)
    requires start + count <= |s|
    ensures var k := FirstAt(s, c, start, start + count);
      r == if k < start + count then k else -1
  {
    hide Pattern, FirstAt, Aligned;
    var p, n := start, count;
    ghost var end := start + count;
    while n > 0 && !Aligned(addr, p)
      invariant p + n == end && start <= p && FirstAt(s, c, p, end) == FirstAt(s, c, start, end)
      decreases n
    {
      FirstAtStep(s, c, p, end);
      if s[p] == c { return p; }
      p, n := p + 1, n - 1;
    }
    if n >= 8 {
      var pat := Pattern(c);
      while n >= 8
        invariant p + n == end && start <= p && FirstAt(s, c, p, end) == FirstAt(s, c, start, end)
        invariant Aligned(addr, p)
        decreases n
      {
        r := MatchInWord(s, addr, p, c, pat);
        FirstAtSplit(s, c, p, p + 8, end);
        if r != -1 { return; }
        NextAligned(addr, p);
        p, n := p + 8, n - 8;
      }
    }
    while n > 0
      invariant p + n == end && start <= p && FirstAt(s, c, p, end) == FirstAt(s, c, start, end)
    {
      FirstAtStep(s, c, p, end);
      if s[p] == c { return p; }
      p, n := p + 1, n - 1;
    }
    return -1;
  }

  lemma FirstAtStep(s: Bytes, c: bv8, i: nat, j: nat)
    requires i < j <= |s|
    ensures FirstAt(s, c, i, j) == if s[i] == c then i else FirstAt(s, c, i + 1, j)
  {
  }

  /** A scan may stop at any point on the way and go on from there. */
  lemma {:induction false} FirstAtSplit(s: Bytes, c: bv8, i: nat, m: nat, j: nat)
    requires i <= m <= j <= |s|
    ensures FirstAt(s, c, i, j) == if FirstAt(s, c, i, m) < m then FirstAt(s, c, i, m) else FirstAt(s, c, m, j)
    decreases m - i
  {
    if i < m && s[i] != c { FirstAtSplit(s, c, i + 1, m, j); }
  }

  /** strlen of a string whose memory extends to a word boundary. */
  method StrLen(s: Bytes, addr: nat, start: nat) returns (n: nat)
    requires Terminated(s, start) && Aligned(addr, |s|)
    ensures n == |StringAt(s, start)|
  {
    hide Load, ZeroMask, Aligned;
    ghost var end := FirstAt(s, 0, start, |s|);
    var p := start;
    while !Aligned(addr, p)
      invariant start <= p <= end
      decreases end - p
    {
      if s[p] == 0 { return p - start; }
      p := p + 1;
    }
    while true
      invariant start <= p <= end && Aligned(addr, p)
      decreases end - p
    {
      WordFits(addr, |s|, p);
      var hasZero := ZeroMask(LoadAligned(s, addr, p));
      MatchMask(s, p, 0);
      ZeroPattern(Load(s, p));
      if hasZero != 0 {
        for i := 0 to 8
          invariant FirstAt(s, 0, p, p + 8) >= p + i && p + i <= end
        {
          if s[p + i] == 0 { return p + i - start; }
        }
      }
      NextAligned(addr, p);
      p := p + 8;
    }
  }

  lemma NextAligned(addr: nat, p: nat)
    requires Aligned(addr, p)
    ensures Aligned(addr, p + 8)
  {
  }

  lemma WordFits(addr: nat, size: nat, p: nat)
    requires Aligned(addr, size) && Aligned(addr, p) && p < size
    ensures p + 8 <= size
  {
  }

  /** One word of memcmp: when the words differ the bytes are compared one by one. */
  method DiffInWord(a: Bytes, x: nat, b: Bytes, y: nat) returns (r: int)
    requires x + 8 <= |a| && y + 8 <= |b|
    ensures var k := Agreeing(a, x, b, y, 8);
      r == if k == 8 then 0 else a[x + k] as int - b[y + k] as int
  {
    hide Load, Agreeing;
    var vx, vy := Load(a, x), Load(b, y);
    LoadsEqual(a, x, b, y);
    AgreeingAll(a, x, b, y, 8);
    if vx != vy {
      for i := 0 to 8
        invariant Agreeing(a, x, b, y, 8) == i + Agreeing(a, x + i, b, y + i, 8 - i)
      {
        AgreeingStep(a, x + i, b, y + i, 8 - i);
        if a[x + i] != b[y + i] { return a[x + i] as int - b[y + i] as int; }
      }
    }
    return 0;
  }

  /** memcmp */
  method MemCmp(a: Bytes, x: nat, b: Bytes, y: nat, count: nat) returns (r: int)
    requires x + count <= |a| && y + count <= |b|
    ensures var k := Agreeing(a, x, b, y, count);
      r == if k == count then 0 else a[x + k] as int - b[y + k] as int
  {
    hide Agreeing;
    var i: nat, n: nat := 0, count;
    while n >= 8
      invariant i + n == count && Agreeing(a, x, b, y, count) == i + Agreeing(a, x + i, b, y + i, n)
    {
      r := DiffInWord(a, x + i, b, y + i);
      AgreeingSplit(a, x + i, b, y + i, 8, n);
      if Agreeing(a, x + i, b, y + i, 8) < 8 { return; }
      i, n := i + 8, n - 8;
    }
    while n > 0
      invariant i + n == count && Agreeing(a, x, b, y, count) == i + Agreeing(a, x + i, b, y + i, n)
    {
      AgreeingStep(a, x + i, b, y + i, n);
      if a[x + i] != b[y + i] { return a[x + i] as int - b[y + i] as int; }
      i, n := i + 1, n - 1;
    }
    return 0;
  }

  lemma AgreeingStep(a: Bytes, x: nat, b: Bytes, y: nat, n: nat)
    requires x + n <= |a| && y + n <= |b| && n > 0
    ensures Agreeing(a, x, b, y, n) == if a[x] != b[y] then 0 else 1 + Agreeing(a, x + 1, b, y + 1, n - 1)
  {
  }

  lemma {:induction false} AgreeingSplit(a: Bytes, x: nat, b: Bytes, y: nat, m: nat, n: nat)
    requires m <= n && x + n <= |a| && y + n <= |b|
    ensures Agreeing(a, x, b, y, n) ==
      if Agreeing(a, x, b, y, m) < m then Agreeing(a, x, b, y, m) else m + Agreeing(a, x + m, b, y + m, n - m)
    decreases m
  {
    hide Agreeing;
    if m > 0 {
      AgreeingStep(a, x, b, y, m);
      AgreeingStep(a, x, b, y, n);
      if a[x] == b[y] { AgreeingSplit(a, x + 1, b, y + 1, m - 1, n - 1); }
    }
  }

  /** The agreeing bytes are equal, and the byte after them differs. */
  lemma {:induction false} AgreeingMeaning(a: Bytes, x: nat, b: Bytes, y: nat, n: nat)
    requires x + n <= |a| && y + n <= |b|
    ensures var r := Agreeing(a, x, b, y, n);
      a[x..x + r] == b[y..y + r] && (r < n ==> a[x + r] != b[y + r])
    decreases n
  {
    if n > 0 && a[x] == b[y] {
      AgreeingMeaning(a, x + 1, b, y + 1, n - 1);
      var r := Agreeing(a, x, b, y, n);
      assert a[x..x + r] == [a[x]] + a[x + 1..x + r] && b[y..y + r] == [b[y]] + b[y + 1..y + r];
    }
  }

  /** memcmp is 0 exactly when the two ranges are equal. */
  lemma AgreeingAll(a: Bytes, x: nat, b: Bytes, y: nat, n: nat)
    requires x + n <= |a| && y + n <= |b|
    ensures Agreeing(a, x, b, y, n) == n <==> a[x..x + n] == b[y..y + n]
  {
    hide Agreeing;
    AgreeingMeaning(a, x, b, y, n);
    var k := Agreeing(a, x, b, y, n);
    assert k < n ==> a[x..x + n][k] != b[y..y + n][k];
  }

  lemma DifferenceNonzero(a: Bytes, x: nat, b: Bytes, y: nat, n: nat)
    requires x + n <= |a| && y + n <= |b|
    ensures var k := Agreeing(a, x, b, y, n);
      k < n ==> a[x + k] as int != b[y + k] as int
  {
    hide Agreeing;
    AgreeingMeaning(a, x, b, y, n);
  }

  ghost predicate NoneBefore(h: Bytes, n: Bytes, m: nat) {
    forall k: nat :: k < m ==> !OccursAt(h, n, k)
  }

  /** strstr: the leftmost occurrence of the needle, or -1 for the null pointer when it does not
      occur anywhere. */
  method StrStr(h: Bytes, hAddr: nat, hp: nat, s: Bytes, sAddr: nat, sp: nat) returns (r: int)
    requires Terminated(h, hp) && Aligned(hAddr, |h|) && Terminated(s, sp) && Aligned(sAddr, |s|)
    ensures r == -1 || r >= hp
    ensures r >= 0 ==> OccursAt(StringAt(h, hp), StringAt(s, sp), r - hp)
    ensures NoneBefore(StringAt(h, hp), StringAt(s, sp), if r == -1 then |StringAt(h, hp)| + 1 else r - hp)
  {
    hide Agreeing, OccursAt, FirstAt;
    ghost var hay, needle := StringAt(h, hp), StringAt(s, sp);
    StartsEmpty(h, hp, s, sp);
    if s[sp] == 0 { return hp; }
    var nl := StrLen(s, sAddr, sp);
    var hl := StrLen(h, hAddr, hp);
    assert NoneBefore(hay, needle, 0);
    if nl > hl {
      NoRoom(hay, needle, 0);
      return -1;
    }
    hide StringAt, NoneBefore;
    var first := s[sp];
    var p: nat := hp;
    while p <= hp + hl - nl
      invariant hp <= p <= hp + hl - nl + 1 && NoneBefore(hay, needle, p - hp)
    {
      var q := MemChr(h, hAddr, p, first, hp + hl - nl + 1 - p);
      NoFirstByte(h, hp, s, sp, p, if q == -1 then hp + hl - nl + 1 else q);
      if q == -1 {
        NoRoom(hay, needle, hl - nl + 1);
        return -1;
      }
      p := q;
      var d := MemCmp(h, p, s, sp, nl);
      OccursIfAgreeing(h, hp, s, sp, p);
      DifferenceNonzero(h, p, s, sp, nl);
      if d == 0 { return p; }
      OneMore(hay, needle, p - hp);
      p := p + 1;
    }
    NoRoom(hay, needle, p - hp);
    return -1;
  }

  lemma StartsEmpty(h: Bytes, hp: nat, s: Bytes, sp: nat)
    requires Terminated(h, hp) && Terminated(s, sp)
    ensures sp < |s| && (s[sp] == 0 <==> StringAt(s, sp) == [])
    ensures s[sp] == 0 ==> OccursAt(StringAt(h, hp), StringAt(s, sp), 0)
    ensures hp + |StringAt(h, hp)| < |h| && sp + |StringAt(s, sp)| < |s|
  {
  }

  /** A needle that no longer fits does not occur any further on. */
  lemma NoRoom(hay: Bytes, needle: Bytes, m: nat)
    requires NoneBefore(hay, needle, m) && m + |needle| > |hay|
    ensures NoneBefore(hay, needle, |hay| + 1)
  {
  }

  lemma OneMore(hay: Bytes, needle: Bytes, m: nat)
    requires NoneBefore(hay, needle, m) && !OccursAt(hay, needle, m)
    ensures NoneBefore(hay, needle, m + 1)
  {
  }

  /** Where the first byte is missing the needle does not occur. */
  lemma NoFirstByte(h: Bytes, hp: nat, s: Bytes, sp: nat, p: nat, q: nat)
    requires Terminated(h, hp) && Terminated(s, sp) && hp <= p <= q && |StringAt(s, sp)| > 0
    requires q <= hp + |StringAt(h, hp)| + 1 - |StringAt(s, sp)|
    requires forall k :: p <= k < q ==> h[k] != s[sp]
    requires NoneBefore(StringAt(h, hp), StringAt(s, sp), p - hp)
    ensures NoneBefore(StringAt(h, hp), StringAt(s, sp), q - hp)
  {
    var hay, needle := StringAt(h, hp), StringAt(s, sp);
    forall k: nat | p - hp <= k < q - hp ensures !OccursAt(hay, needle, k) {
      assert hay[k..k + |needle|][0] == h[hp + k] && needle[0] == s[sp];
    }
  }

  /** memcmp tells whether the needle occurs at p. */
  lemma OccursIfAgreeing(h: Bytes, hp: nat, s: Bytes, sp: nat, p: nat)
    requires Terminated(h, hp) && Terminated(s, sp) && hp <= p
    requires p + |StringAt(s, sp)| <= hp + |StringAt(h, hp)|
    ensures OccursAt(StringAt(h, hp), StringAt(s, sp), p - hp) <==>
      Agreeing(h, p, s, sp, |StringAt(s, sp)|) == |StringAt(s, sp)|
  {
    hide Agreeing, FirstAt;
    var n := |StringAt(s, sp)|;
    AgreeingAll(h, p, s, sp, n);
    assert StringAt(h, hp)[p - hp..p - hp + n] == h[p..p + n];
  }
}
