/** The size classes of the two-level segregated fit and the rounding of requests.
    Sizes and alignments are in bytes. A class (fl, sl) is also numbered 32 * fl + sl, its
    place in the row-major table of list heads. */
module Mapping {
  import opened Bits

  const FL_INDEX_COUNT: nat := 25
  const SL_INDEX_COUNT: nat := 32
  const CLASS_COUNT: nat := 800
  const SMALL_BLOCK_SIZE: nat := 256
  const BLOCK_SIZE_MIN: nat := 24
  const BLOCK_SIZE_MAX: nat := 0x1_0000_0000
  const HEADER_SIZE: nat := 32
  const ALIGN_SIZE: nat := 8

  /** tlsf_fls_sizet: the highest set bit of a 64-bit size, from its two 32-bit halves. */
  function FlsSizet(size: nat): (f: int)
    ensures size > 0 ==> f >= 0 && Pow2(f) <= size < 2 * Pow2(f)
    ensures size == 0 ==> f == -1
  {
    var high := size / 0x1_0000_0000;
    if high != 0 then
      HighHalf(size);
      32 + Fls(high)
    else
      if size > 0 then FlsIsLog2(size); Fls(size) else Fls(size)
  }

  lemma HighHalf(size: nat)
    requires size >= 0x1_0000_0000
    ensures var f := 32 + Fls(size / 0x1_0000_0000); f >= 0 && Pow2(f) <= size < 2 * Pow2(f)
  {
    var high := size / 0x1_0000_0000;
    FlsIsLog2(high);
    Pow2Values();
    Pow2Add(Fls(high), 32);
    var p := Pow2(Fls(high));
    assert Pow2(32 + Fls(high)) == p * 0x1_0000_0000;
  }

  /** mapping_insert: the class a block of `size` bytes is filed under. */
  function MappingInsert(size: nat): (r: (nat, nat))
    ensures r.1 < SL_INDEX_COUNT
  {
    if size < SMALL_BLOCK_SIZE then
      (0, size / (SMALL_BLOCK_SIZE / SL_INDEX_COUNT))
    else
      var f: nat := FlsSizet(size);
      LargeClass(size, f);
      (f - 7, Xor(size / Pow2(f - 5), 32))
  }

  lemma LargeClass(size: nat, f: nat)
    requires size >= SMALL_BLOCK_SIZE && Pow2(f) <= size < 2 * Pow2(f)
    ensures f >= 8
    ensures var q := size / Pow2(f - 5);
      32 <= q < 64 && Xor(q, 32) == q - 32 && q * Pow2(f - 5) <= size < (q + 1) * Pow2(f - 5)
  {
    Pow2Values();
    if f < 8 { Pow2Monotone(f, 7); assert false; }
    var d := Pow2(f - 5);
    Pow2Add(5, f - 5);
    assert Pow2(f) == 32 * d;
    QuotientRange(size, d, 32, 64);
    DivBounds(size, d);
    var q := size / d;
    XorTop(q);
  }

  lemma XorTop(q: nat)
    requires 32 <= q < 64
    ensures Xor(q, 32) == q - 32
  {
    assert Xor(q / 32, 1) == 0;
    assert Xor(q / 16, 2) == q / 16 - 2;
    assert Xor(q / 8, 4) == q / 8 - 4;
    assert Xor(q / 4, 8) == q / 4 - 8;
    assert Xor(q / 2, 16) == q / 2 - 16;
  }

  /** The number of the class a block of `size` bytes is filed under. */
  function ClassOf(size: nat): nat {
    var r := MappingInsert(size);
    SL_INDEX_COUNT * r.0 + r.1
  }

  /** Least size of class k, and the number of sizes in it. */
  function Lo(k: nat): nat {
    if k < 32 then 8 * k else (32 + k % 32) * Pow2(k / 32 + 2)
  }

  function Width(k: nat): nat {
    if k < 32 then 8 else Pow2(k / 32 + 2)
  }

  /** Each class begins where the previous one ends. */
  lemma ClassesAdjoin(k: nat)
    ensures Lo(k + 1) == Lo(k) + Width(k) && Width(k) > 0
  {
    if k < 31 {
    } else if k == 31 {
      Pow2Values();
      assert Pow2(3) == 8;
    } else {
      var p := Pow2(k / 32 + 2);
      if k % 32 < 31 {
        assert (k + 1) / 32 == k / 32 && (k + 1) % 32 == k % 32 + 1;
        assert (32 + (k % 32 + 1)) * p == (32 + k % 32) * p + p;
      } else {
        assert (k + 1) / 32 == k / 32 + 1 && (k + 1) % 32 == 0;
      }
    }
  }

  lemma {:induction false} LoIncreasing(j: nat, k: nat)
    requires j < k
    ensures Lo(j) < Lo(k)
  {
    ClassesAdjoin(k - 1);
    if j < k - 1 { LoIncreasing(j, k - 1); }
  }

  lemma {:induction false} LoAtLeast(k: nat)
    ensures Lo(k) >= k
  {
    if k > 0 { LoAtLeast(k - 1); ClassesAdjoin(k - 1); }
  }

  /** The class of a size by linear scan of the class bounds, from class k up. */
  function ClassFrom(size: nat, k: nat): nat
    decreases size - k
  {
    LoAtLeast(k + 1);
    if size < Lo(k + 1) then k else ClassFrom(size, k + 1)
  }

  function ClassBySize(size: nat): nat {
    ClassFrom(size, 0)
  }

  /** The first class, from class k up, all of whose sizes are at least `size`. */
  function SufficientFrom(size: nat, k: nat): nat
    decreases size - k
  {
    LoAtLeast(k);
    if size <= Lo(k) then k else SufficientFrom(size, k + 1)
  }

  function FirstSufficient(size: nat): nat {
    SufficientFrom(size, 0)
  }

  lemma {:induction false} ClassFromBounds(size: nat, k: nat)
    requires Lo(k) <= size
    ensures var c := ClassFrom(size, k); c >= k && Lo(c) <= size < Lo(c + 1)
    decreases size - k
  {
    LoAtLeast(k + 1);
    if Lo(k + 1) <= size { ClassFromBounds(size, k + 1); }
  }

  lemma {:induction false} SufficientFromBounds(size: nat, k: nat)
    requires k == 0 || Lo(k - 1) < size
    ensures var c := SufficientFrom(size, k); c >= k && Lo(c) >= size && (c == 0 || Lo(c - 1) < size)
    decreases size - k
  {
    LoAtLeast(k);
    if Lo(k) < size { SufficientFromBounds(size, k + 1); }
  }

  /** mapping_insert computes the class the linear scan finds. */
  lemma ClassOfIsScan(size: nat)
    ensures ClassOf(size) == ClassBySize(size)
  {
    ClassFromBounds(size, 0);
    ClassIsInterval(size, ClassBySize(size));
  }

  lemma InOwnInterval(size: nat)
    ensures Lo(ClassOf(size)) <= size < Lo(ClassOf(size) + 1)
  {
    var k := ClassOf(size);
    ClassesAdjoin(k);
    if size >= SMALL_BLOCK_SIZE {
      var f: nat := FlsSizet(size);
      LargeClass(size, f);
      var q := size / Pow2(f - 5);
      assert MappingInsert(size) == (f - 7, q - 32);
      assert k == 32 * (f - 7) + (q - 32);
      assert k / 32 == f - 7 && k % 32 == q - 32;
      assert Lo(k) == q * Pow2(f - 5);
    }
  }

  /** The classes are consecutive intervals that tile the sizes. */
  lemma ClassIsInterval(size: nat, k: nat)
    ensures ClassOf(size) == k <==> Lo(k) <= size < Lo(k + 1)
  {
    var c := ClassOf(size);
    InOwnInterval(size);
    if c < k {
      if c + 1 < k { LoIncreasing(c + 1, k); }
    } else if k < c {
      if k + 1 < c { LoIncreasing(k + 1, c); }
    }
  }

  lemma ClassMonotone(s: nat, t: nat)
    requires s <= t
    ensures ClassOf(s) <= ClassOf(t)
  {
    InOwnInterval(s);
    InOwnInterval(t);
    var c, d := ClassOf(s), ClassOf(t);
    if d < c && d + 1 < c { LoIncreasing(d + 1, c); }
  }

  /** A size has a place in the 25 x 32 table exactly when it is below 2^32; in
      particular 2^32 itself, which tlsf_add_pool admits, has none. */
  lemma ClassInTable(size: nat)
    ensures ClassOf(size) < CLASS_COUNT <==> size < BLOCK_SIZE_MAX
    ensures MappingInsert(size).0 < FL_INDEX_COUNT <==> size < BLOCK_SIZE_MAX
  {
    Pow2Values();
    Pow2Add(5, 27);
    assert Lo(800) == BLOCK_SIZE_MAX;
    InOwnInterval(size);
    var c := ClassOf(size);
    if c < 800 {
      if c + 1 < 800 { LoIncreasing(c + 1, 800); }
    } else {
      if 800 < c { LoIncreasing(800, c); }
    }
  }

  /** A pool of 2^32 bytes, which tlsf_add_pool accepts, has a block one row beyond the table. */
  lemma LargestPoolOutside()
    ensures MappingInsert(BLOCK_SIZE_MAX) == (FL_INDEX_COUNT, 0)
  {
    Pow2Values();
    assert FlsSizet(BLOCK_SIZE_MAX) == 32;
    hide Pow2;
    Pow2Add(27, 5);
    DivModUnique(BLOCK_SIZE_MAX, Pow2(27), 32, 0);
    LargeClass(BLOCK_SIZE_MAX, 32);
  }

  /** The size whose class mapping_search starts from. */
  function SearchSize(size: nat): (s: nat)
    ensures s >= size
  {
    if size >= SMALL_BLOCK_SIZE then
      var f: nat := FlsSizet(size);
      LargeClass(size, f);
      size + (Pow2(f - 5) - 1)
    else size
  }

  function MappingSearch(size: nat): (r: (nat, nat))
    ensures r.1 < SL_INDEX_COUNT
  {
    MappingInsert(SearchSize(size))
  }

  function SearchClass(size: nat): nat {
    ClassOf(SearchSize(size))
  }

  /** A class at or above 32 starts in the power-of-two range of its row. */
  lemma LoRange(k: nat)
    requires k >= 32
    ensures Pow2(k / 32 + 7) <= Lo(k) < Pow2(k / 32 + 8)
  {
    assert Pow2(5) == 32 && Pow2(6) == 64;
    hide Pow2;
    var j := k / 32;
    Pow2Add(5, j + 2);
    Pow2Add(6, j + 2);
    RowRange(k % 32, Pow2(j + 2));
  }

  lemma RowRange(r: nat, d: nat)
    requires r < 32 && d > 0
    ensures 32 * d <= (32 + r) * d < 64 * d
  {
    assert r * d >= 0 && (32 - r) * d > 0;
    assert (32 + r) * d == 32 * d + r * d;
    assert (32 - r) * d == 32 * d - r * d;
  }

  lemma WidthFrom(f: nat, k: nat)
    requires f >= 8 && Lo(k) >= Pow2(f)
    ensures Width(k) >= Pow2(f - 5)
  {
    Pow2Values();
    hide Pow2;
    Pow2Monotone(8, f);
    assert k >= 32;
    LoRange(k);
    hide Lo;
    if k / 32 + 8 <= f { Pow2Monotone(k / 32 + 8, f); } else { Pow2Monotone(f - 5, k / 32 + 2); }
  }

  lemma WidthBelow(f: nat, k: nat)
    requires f >= 8 && Lo(k) < 2 * Pow2(f)
    ensures Width(k) <= Pow2(f - 5)
  {
    Pow2Values();
    Pow2Double(f);
    hide Pow2, Lo;
    Pow2Monotone(3, f - 5);
    if k >= 32 {
      LoRange(k);
      if f + 1 <= k / 32 + 7 { Pow2Monotone(f + 1, k / 32 + 7); } else { Pow2Monotone(k / 32 + 2, f - 5); }
    }
  }

  /** mapping_search starts at exactly the first class all of whose blocks are big enough,
      rounding into the next power of two included. */
  lemma SearchClassExact(size: nat, k: nat)
    requires size % ALIGN_SIZE == 0
    ensures k >= SearchClass(size) <==> Lo(k) >= size
  {
    var s := SearchSize(size);
    var c := ClassOf(s);
    InOwnInterval(s);
    ClassesAdjoin(c);
    ClassesAdjoin(k);
    if size >= SMALL_BLOCK_SIZE {
      var f: nat := FlsSizet(size);
      LargeClass(size, f);
      if Lo(c) < 2 * Pow2(f) { WidthBelow(f, c); }
      assert Lo(c) >= size;
      if Lo(k) >= size { WidthFrom(f, k); }
    } else {
      assert c == size / 8 && Lo(c) == size;
    }
    if k > c { LoIncreasing(c, k); }
    if k < c && k + 1 < c { LoIncreasing(k + 1, c); }
  }

  /** mapping_search computes the first sufficient class. */
  lemma SearchClassIsScan(size: nat)
    requires size % ALIGN_SIZE == 0
    ensures SearchClass(size) == FirstSufficient(size)
  {
    SufficientFromBounds(size, 0);
    var c := FirstSufficient(size);
    SearchClassExact(size, c);
    if c > 0 { SearchClassExact(size, c - 1); }
  }

  /** Every block filed at or above the search class satisfies the request. */
  lemma SearchSound(size: nat, block: nat)
    requires ClassBySize(block) >= FirstSufficient(size)
    ensures block >= size
  {
    SufficientFromBounds(size, 0);
    ClassFromBounds(block, 0);
    var c, k := FirstSufficient(size), ClassBySize(block);
    if c < k { LoIncreasing(c, k); }
  }

  /** A block filed below the search class is too small for the rounded-up request. */
  lemma SearchNearlyComplete(size: nat, block: nat)
    requires size > 0 && size % ALIGN_SIZE == 0 && ClassBySize(block) < FirstSufficient(size)
    ensures size < SMALL_BLOCK_SIZE ==> block < size
    ensures size >= SMALL_BLOCK_SIZE ==> FlsSizet(size) >= 8 && block < size + Pow2(FlsSizet(size) - 5) - 1
  {
    ClassOfIsScan(block);
    SearchClassIsScan(size);
    if size >= SMALL_BLOCK_SIZE { LargeClass(size, FlsSizet(size)); }
    if block >= SearchSize(size) { ClassMonotone(SearchSize(size), block); }
  }

  /** Sizes below 2^32 have a class in the table, by either definition. */
  lemma ClassBySizeInTable(size: nat)
    ensures ClassBySize(size) < CLASS_COUNT <==> size < BLOCK_SIZE_MAX
  {
    ClassOfIsScan(size);
    ClassInTable(size);
  }

  // ------------------------------------------------------------------ request sizes

  /** align_up on a 64-bit size_t, for a power of two `align`: the sum wraps. */
  function AlignUp(x: nat, align: nat): nat
    requires align > 0
  {
    var sum := (x + (align - 1)) % WORD_LIMIT;
    sum - sum % align
  }

  /** The bitwise form of align_up computes AlignUp. */
  lemma AlignUpBitwise(x: nat, a: nat)
    requires a < 64
    ensures Pow2(a) <= Pow2(64) == WORD_LIMIT
    ensures And((x + (Pow2(a) - 1)) % WORD_LIMIT, Not(64, Pow2(a) - 1)) == AlignUp(x, Pow2(a))
  {
    Pow2Values();
    AndHighMask((x + (Pow2(a) - 1)) % WORD_LIMIT, a, 64);
  }

  /** The next multiple of `align`, when the sum does not wrap. */
  lemma AlignUpIsNext(x: nat, align: nat)
    requires align > 0 && x + (align - 1) < WORD_LIMIT
    ensures var r := AlignUp(x, align); r % align == 0 && x <= r < x + align
  {
    var sum := x + (align - 1);
    assert sum % WORD_LIMIT == sum;
    var m := sum % align;
    assert 0 <= m < align && AlignUp(x, align) == sum - m;
    RoundDown(sum, align);
  }

  /** adjust_request_size */
  function AdjustRequestSize(size: nat, align: nat): nat
    requires align > 0
  {
    if size == 0 then 0
    else
      var aligned := AlignUp(size, align);
      if aligned < BLOCK_SIZE_MAX then (if aligned > BLOCK_SIZE_MIN then aligned else BLOCK_SIZE_MIN) else 0
  }

  /** The largest request that does not wrap when rounded up to 8. */
  const MAX_UNWRAPPED: nat := 0xffff_ffff_ffff_fff8

  /** What adjusting to 8 gives: a multiple of 8 under 2^32, at least 24, or 0 for refused
      requests. It covers the request exactly when rounding up by 7 does not wrap. */
  lemma AdjustRequest(size: nat)
    requires size < WORD_LIMIT
    ensures var a := AdjustRequestSize(size, ALIGN_SIZE);
      && a % 8 == 0 && a < BLOCK_SIZE_MAX
      && (a == 0 <==> size == 0 || BLOCK_SIZE_MAX - 8 < size <= MAX_UNWRAPPED)
      && (a != 0 ==> a >= BLOCK_SIZE_MIN && (a >= size <==> size <= MAX_UNWRAPPED))
      && (size > MAX_UNWRAPPED ==> a == BLOCK_SIZE_MIN)
      && (a > BLOCK_SIZE_MIN ==> a < size + 8)
  {
    if 0 < size <= MAX_UNWRAPPED {
      AlignUpIsNext(size, 8);
    }
  }

  // ------------------------------------------------------------------ alignment

  ghost predicate PowerOfTwo(n: nat) {
    exists a: nat :: a < 64 && n == Pow2(a)
  }

  lemma {:induction false} Pow2Over8(a: nat)
    requires a >= 3
    ensures Pow2(a) % 8 == 0
  {
    if a > 3 { Pow2Over8(a - 1); }
  }

  /** Powers of two above 8 are multiples of 8, at least 16; the others divide 8. */
  lemma PowerOfTwoCases(align: nat)
    requires PowerOfTwo(align)
    ensures align > ALIGN_SIZE ==> align >= 16 && align % 8 == 0
    ensures align <= ALIGN_SIZE ==> align == 1 || align == 2 || align == 4 || align == 8
    ensures align <= 0x4000_0000_0000_0000 || align == 0x8000_0000_0000_0000
  {
    var a: nat :| a < 64 && align == Pow2(a);
    Pow2Values();
    assert Pow2(62) == 0x4000_0000_0000_0000;
    if a >= 4 { Pow2Monotone(4, a); Pow2Over8(a); }
    if a <= 62 { Pow2Monotone(a, 62); }
  }

  /** align_ptr, for addresses whose sum with the alignment does not wrap. */
  function AlignPtr(ptr: nat, align: nat): (r: nat)
    requires align > 0
    ensures r % align == 0 && ptr <= r < ptr + align
  {
    var sum := ptr + (align - 1);
    RoundDown(sum, align);
    sum - sum % align
  }

  /** Byte distance from a payload at `ptr` to the payload memalign carves out of the block. */
  function AlignGap(ptr: nat, align: nat): nat
    requires align > 0
  {
    GapTo(ptr, AlignPtr(ptr, align), align)
  }

  /** The gap to `aligned`, or beyond it when too short for a block header. */
  function GapTo(ptr: nat, aligned: nat, align: nat): nat
    requires align > 0 && ptr <= aligned
  {
    var gap := aligned - ptr;
    if 0 < gap < HEADER_SIZE then
      var offset := if HEADER_SIZE - gap > align then HEADER_SIZE - gap else align;
      AlignPtr(aligned + offset, align) - ptr
    else gap
  }

  lemma MultiplesAdd(x: nat, y: nat, d: nat)
    requires d > 0 && x % d == 0 && y % d == 0
    ensures (x + y) % d == 0
  {
    assert x == d * (x / d) && y == d * (y / d);
    assert x + y == d * (x / d + y / d);
    DivModUnique(x + y, d, x / d + y / d, 0);
  }

  lemma MultipleOfMultiple(x: nat, d: nat)
    requires d > 0 && d % 8 == 0 && x % d == 0
    ensures x % 8 == 0
  {
    var q, e := x / d, d / 8;
    assert x == d * q == (8 * e) * q == 8 * (e * q);
  }

  /** Two multiples of d less than d apart are equal. */
  lemma MultipleUnique(x: nat, r: nat, d: nat)
    requires d > 0 && x % d == 0 && r % d == 0 && r - d < x < r + d
    ensures x == r
  {
    assert x == d * (x / d) && r == d * (r / d);
    if x / d > r / d { MulGap(d, x / d, r / d); }
    if x / d < r / d { MulGap(d, r / d, x / d); }
  }

  lemma AlignNextMultiple(aligned: nat, align: nat)
    requires align > 0 && aligned % align == 0
    ensures AlignPtr(aligned + align, align) == aligned + align && (aligned + align) % align == 0
  {
    DivModUnique(align, align, 1, 0);
    MultiplesAdd(aligned, align, align);
    MultipleUnique(AlignPtr(aligned + align, align), aligned + align, align);
  }

  lemma AlignSixteen(aligned: nat)
    requires aligned % 16 == 0
    ensures AlignPtr(aligned + 24, 16) == aligned + 32 && (aligned + 32) % 16 == 0
  {
    var r := AlignPtr(aligned + 24, 16);
    assert r % 16 == 0 && aligned + 24 <= r < aligned + 40;
  }

  lemma GapToCases(ptr: nat, aligned: nat, align: nat)
    requires ptr % 8 == 0 && aligned % 8 == 0 && align % 8 == 0 && align >= 16 && aligned % align == 0
    requires ptr <= aligned < ptr + align
    ensures GapTo(ptr, aligned, align) ==
      (var gap := aligned - ptr;
       if gap == 0 || gap >= HEADER_SIZE then gap else if align == 16 && gap == 8 then gap + 32 else gap + align)
    ensures (ptr + GapTo(ptr, aligned, align)) % align == 0
  {
    var gap := aligned - ptr;
    if 0 < gap < HEADER_SIZE { ShortGap(ptr, aligned, align); }
    assert ptr + gap == aligned;
  }

  /** A gap too short for a header moves on by the alignment, or by 32 from 8 to alignment 16. */
  lemma ShortGap(ptr: nat, aligned: nat, align: nat)
    requires ptr % 8 == 0 && aligned % 8 == 0 && align % 8 == 0 && align >= 16 && aligned % align == 0
    requires 0 < aligned - ptr < HEADER_SIZE && aligned < ptr + align
    ensures GapTo(ptr, aligned, align) == aligned - ptr + (if align == 16 && aligned - ptr == 8 then 32 else align)
    ensures (ptr + GapTo(ptr, aligned, align)) % align == 0
  {
    var gap := aligned - ptr;
    GapsByEight(ptr, aligned);
    assert GapTo(ptr, aligned, align) ==
      AlignPtr(aligned + (if HEADER_SIZE - gap > align then HEADER_SIZE - gap else align), align) - ptr;
    hide AlignPtr, GapTo;
    if HEADER_SIZE - gap > align {
      assert align == 16 && gap == 8;
      AlignSixteen(aligned);
    } else {
      AlignNextMultiple(aligned, align);
    }
  }

  lemma GapsByEight(ptr: nat, aligned: nat)
    requires ptr % 8 == 0 && aligned % 8 == 0 && 0 < aligned - ptr < HEADER_SIZE
    ensures aligned - ptr == 8 || aligned - ptr == 16 || aligned - ptr == 24
  {
  }

  /** The gap in front of the aligned payload is 0 or has room for a block, and is never
      more than align + 24. */
  lemma AlignGapBounds(ptr: nat, align: nat)
    requires ptr % 8 == 0 && align % 8 == 0 && align >= 16
    ensures var gap := AlignGap(ptr, align);
      && (ptr + gap) % align == 0 && gap % 8 == 0
      && (gap == 0 || gap >= HEADER_SIZE) && gap <= align + BLOCK_SIZE_MIN
  {
    var aligned := AlignPtr(ptr, align);
    MultipleOfMultiple(aligned, align);
    GapToCases(ptr, aligned, align);
    GapToRange(ptr, aligned, align);
  }

  lemma GapToRange(ptr: nat, aligned: nat, align: nat)
    requires ptr % 8 == 0 && aligned % 8 == 0 && align % 8 == 0 && align >= 16
    requires ptr <= aligned < ptr + align
    ensures var gap := aligned - ptr;
      var g := if gap == 0 || gap >= HEADER_SIZE then gap
               else if align == 16 && gap == 8 then gap + 32 else gap + align;
      g % 8 == 0 && (g == 0 || g >= HEADER_SIZE) && g <= align + BLOCK_SIZE_MIN
  {
  }

  /** The gap is the least that reaches a multiple of the alignment and is 0 or has room for a block; a
      payload that is aligned already has none. */
  lemma AlignGapLeast(ptr: nat, align: nat, gap: nat)
    requires ptr % 8 == 0 && PowerOfTwo(align) && align >= 16
    requires (ptr + gap) % align == 0 && (gap == 0 || gap >= HEADER_SIZE)
    ensures AlignGap(ptr, align) <= gap
    ensures ptr % align == 0 ==> AlignGap(ptr, align) == 0
  {
    hide PowerOfTwo, AlignPtr;
    PowerOfTwoSixteen(align);
    PowerOfTwoCases(align);
    var aligned := AlignPtr(ptr, align);
    MultipleOfMultiple(aligned, align);
    GapToCases(ptr, aligned, align);
    if ptr % align == 0 { MultipleUnique(aligned, ptr, align); }
    MultiplesApart(aligned, ptr + gap, align);
  }

  /** Multiples of d are 0, d or at least 2 d apart. */
  lemma MultiplesApart(x: nat, y: nat, d: nat)
    requires d > 0 && x % d == 0 && y % d == 0
    ensures y <= x - d || y == x || y == x + d || y >= x + 2 * d
  {
    if x < y < x + d || x - d < y < x { MultipleUnique(y, x, d); }
    if x + d < y < x + 2 * d {
      MultiplesAdd(x, d, d);
      MultipleUnique(y, x + d, d);
    }
  }

  /** The bound on the gap is attained: a payload 24 bytes short of a boundary. */
  lemma AlignGapTight(ptr: nat, align: nat)
    requires ptr % 8 == 0 && PowerOfTwo(align) && align >= 16 && (ptr + BLOCK_SIZE_MIN) % align == 0
    ensures AlignGap(ptr, align) == align + BLOCK_SIZE_MIN
  {
    var aligned := AlignPtr(ptr, align);
    PowerOfTwoSixteen(align);
    PowerOfTwoCases(align);
    MultipleOfMultiple(aligned, align);
    GapToCases(ptr, aligned, align);
    if align == 16 {
      assert aligned - ptr == 8;
    } else {
      MultipleUnique(aligned, ptr + 24, align);
    }
  }

  lemma PowerOfTwoSixteen(align: nat)
    requires PowerOfTwo(align) && align >= 16
    ensures align == 16 || align >= 32
  {
    var a: nat :| a < 64 && align == Pow2(a);
    Pow2Values();
    if a < 4 { Pow2Monotone(a, 3); } else if a > 4 { Pow2Monotone(5, a); }
  }

  /** The adjusted size memalign searches for. */
  function MemalignSize(align: nat, size: nat): nat
    requires align > 0
  {
    var adjust := AdjustRequestSize(size, ALIGN_SIZE);
    if adjust != 0 && align > ALIGN_SIZE then AdjustRequestSize(adjust + align + HEADER_SIZE, align) else adjust
  }

  /** The size memalign searches for has room for the gap and the request, or is a refusal,
      for every power of two but 2^63; there the rounding wraps to the minimum size. */
  lemma MemalignSizeExact(align: nat, size: nat)
    requires PowerOfTwo(align) && align > ALIGN_SIZE && size < WORD_LIMIT
    requires AdjustRequestSize(size, ALIGN_SIZE) != 0
    ensures var need := AdjustRequestSize(size, ALIGN_SIZE) + align + HEADER_SIZE;
      var m := MemalignSize(align, size);
      && m % 8 == 0 && m < BLOCK_SIZE_MAX
      && (m == 0 || m >= need <==> align != 0x8000_0000_0000_0000)
      && (align == 0x8000_0000_0000_0000 ==> m == BLOCK_SIZE_MIN)
  {
    hide AlignUp, AdjustRequestSize, PowerOfTwo;
    AdjustRequest(size);
    PowerOfTwoCases(align);
    var need := AdjustRequestSize(size, ALIGN_SIZE) + align + HEADER_SIZE;
    AdjustedUp(need, align);
    if align == 0x8000_0000_0000_0000 {
      TopAlignWraps(need);
    } else {
      AlignUpIsNext(need, align);
      MultipleOfMultiple(AlignUp(need, align), align);
    }
  }

  /** The number memalign has to search for: for alignments from 16 below 2^63 the least multiple of the
      alignment with room for the request, the alignment and a header; for 2^63 the sum wraps. */
  predicate SearchFor(align: nat, adjust: nat, need: nat) {
    if align <= ALIGN_SIZE then need == adjust
    else if align == 0x8000_0000_0000_0000 then need == BLOCK_SIZE_MIN
    else need % align == 0 && adjust + align + HEADER_SIZE <= need < adjust + align + HEADER_SIZE + align
  }

  /** That number is what is searched for, and it is refused exactly from 2^32 up. */
  lemma MemalignSizeIs(align: nat, size: nat, need: nat)
    requires PowerOfTwo(align) && size < WORD_LIMIT && AdjustRequestSize(size, ALIGN_SIZE) != 0
    requires SearchFor(align, AdjustRequestSize(size, ALIGN_SIZE), need)
    ensures MemalignSize(align, size) == (if need >= BLOCK_SIZE_MAX then 0 else need) && need % 8 == 0 && need > 0
  {
    hide AlignUp, AdjustRequestSize, PowerOfTwo;
    AdjustRequest(size);
    PowerOfTwoCases(align);
    if align == 0x8000_0000_0000_0000 {
      MemalignSizeExact(align, size);
    } else if align > ALIGN_SIZE {
      var least := AdjustRequestSize(size, ALIGN_SIZE) + align + HEADER_SIZE;
      AdjustedUp(least, align);
      AlignUpIsNext(least, align);
      MultipleUnique(AlignUp(least, align), need, align);
      MultipleOfMultiple(need, align);
    }
  }

  lemma AdjustedUp(size: nat, align: nat)
    requires align > 0 && size > 0
    ensures var up := AlignUp(size, align);
      AdjustRequestSize(size, align) ==
        if up >= BLOCK_SIZE_MAX then 0 else if up > BLOCK_SIZE_MIN then up else BLOCK_SIZE_MIN
  {
  }

  /** Just above 2^63, rounding up to a multiple of 2^63 wraps to 0. */
  lemma TopAlignWraps(need: nat)
    requires 0x8000_0000_0000_0000 < need < 0xc000_0000_0000_0000
    ensures AlignUp(need, 0x8000_0000_0000_0000) == 0
  {
  }
}
