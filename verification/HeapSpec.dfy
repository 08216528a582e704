/** What each public operation of the allocator does to the abstract heap, and the proof
    that every one of them keeps the heap invariant. */
module HeapSpec {
  import opened Bits
  import opened Mapping
  import opened FreeList
  import opened Blocks

  // ---------------------------------------------------------------- finding a block

  /** Linear scan for the first non-empty list at or above class k. */
  function FirstNonEmpty(lists: seq<seq<int>>, k: nat): (r: nat)
    ensures k <= |lists| ==> k <= r <= |lists|
    ensures r < |lists| ==> lists[r] != []
    ensures forall j :: k <= j < r && j < |lists| ==> lists[j] == []
    decreases |lists| - k
  {
    if k >= |lists| then k else if lists[k] != [] then k else FirstNonEmpty(lists, k + 1)
  }

  /** The block a request of `size` bytes (already adjusted) is served from, or NULL_BLOCK. */
  ghost function Locate(s: State, size: nat): int {
    if size == 0 then NULL_BLOCK
    else
      var k := FirstNonEmpty(s.lists, FirstSufficient(size));
      if k < |s.lists| then s.lists[k][0] else NULL_BLOCK
  }

  lemma LocateFound(s: State, size: nat)
    requires Inv(s) && Locate(s, size) != NULL_BLOCK && size % 8 == 0
    ensures var b := Locate(s, size);
      && b in s.blk && b != s.end && s.blk[b].free && 8 * s.blk[b].units >= size
      && UnitClass(s.blk[b].units) == FirstNonEmpty(s.lists, FirstSufficient(size)) < |s.lists|
      && s.lists[UnitClass(s.blk[b].units)][0] == b
  {
    var k := FirstNonEmpty(s.lists, FirstSufficient(size));
    var b := s.lists[k][0];
    assert ListOk(s, k, {}) && b in s.lists[k];
    assert MemberOk(s, k, b, {});
    assert BlockOk(s, b);
    SearchSound(size, 8 * s.blk[b].units);
  }

  /** The search fails exactly when no free block is filed at or above the search class, and
      then every free block is smaller than the rounded-up request. */
  lemma LocateFails(s: State, size: nat)
    requires Inv(s) && size > 0 && size % 8 == 0
    ensures Locate(s, size) == NULL_BLOCK <==>
      forall b :: b in s.blk && s.blk[b].free ==> UnitClass(s.blk[b].units) < FirstSufficient(size)
    ensures Locate(s, size) == NULL_BLOCK ==>
      forall b :: b in s.blk && s.blk[b].free ==>
        if size < SMALL_BLOCK_SIZE then 8 * s.blk[b].units < size
        else FlsSizet(size) >= 8 && 8 * s.blk[b].units < size + Pow2(FlsSizet(size) - 5) - 1
  {
    var c := FirstSufficient(size);
    var k := FirstNonEmpty(s.lists, c);
    if k < |s.lists| {
      var b := s.lists[k][0];
      assert ListOk(s, k, {}) && b in s.lists[k];
      assert MemberOk(s, k, b, {}) && BlockOk(s, b);
      assert k >= c;
    } else {
      forall b | b in s.blk && s.blk[b].free
        ensures UnitClass(s.blk[b].units) < c
        ensures if size < SMALL_BLOCK_SIZE then 8 * s.blk[b].units < size
          else FlsSizet(size) >= 8 && 8 * s.blk[b].units < size + Pow2(FlsSizet(size) - 5) - 1
      {
        assert OnList(s, b, {});
        SearchNearlyComplete(size, 8 * s.blk[b].units);
      }
    }
  }

  // ---------------------------------------------------------------- neighbours

  lemma PredecessorExists(s: State, b: int)
    requires Tiling(s) && b in s.blk && b != FIRST
    ensures exists p :: p in s.blk && p != s.end && Next(s, p) == b
  {
    var p := Predecessor(s, b);
  }

  ghost function Prev(s: State, b: int): (p: int)
    requires Tiling(s) && b in s.blk && b != FIRST
    ensures p in s.blk && p != s.end && Next(s, p) == b
  {
    PredecessorExists(s, b);
    var p :| p in s.blk && p != s.end && Next(s, p) == b;
    p
  }

  /** block_merge_prev: joins a block to its free predecessor. */
  ghost function MergePrev(s: State, b: int): (State, int)
    requires Tiling(s) && b in s.blk
  {
    if b != FIRST && s.blk[b].prevFree then
      var p := Prev(s, b);
      (Absorb(Unlist(s, p), p), p)
    else (s, b)
  }

  /** block_merge_next: joins a block to its free successor. */
  ghost function MergeNext(s: State, b: int): State
    requires b in s.blk && Next(s, b) in s.blk
  {
    if s.blk[Next(s, b)].free then Absorb(Unlist(s, Next(s, b)), b) else s
  }

  // ---------------------------------------------------------------- trimming

  /** block_can_split, with both sizes in units. */
  predicate CanSplit(units: nat, request: nat) {
    8 * units >= HEADER_SIZE + 8 * request
  }

  /** block_trim_free: gives the tail of a loose free block back. */
  ghost function TrimFree(s: State, b: int, units: nat): State
    requires b in s.blk && Next(s, b) in s.blk
  {
    if CanSplit(s.blk[b].units, units) then Enlist(Split(s, b, units), Rest(b, units)) else s
  }

  /** block_trim_free_leading: gives the head of a loose free block back; the rest is kept. */
  ghost function TrimLeading(s: State, b: int, gap: nat): (State, int)
    requires b in s.blk && Next(s, b) in s.blk
  {
    if gap > 0 && CanSplit(s.blk[b].units, gap) then (Enlist(Split(s, b, gap - 1), b), b + gap) else (s, b)
  }

  /** block_trim_used: gives the tail of a used block back, joined with a free successor. */
  ghost function TrimUsed(s: State, b: int, units: nat): State
    requires Tiling(s) && b in s.blk && b != s.end && (units >= 3 || !CanSplit(s.blk[b].units, units))
  {
    if CanSplit(s.blk[b].units, units) then
      TilingSplit(s, b, units);
      var t, r := Split(s, b, units), Rest(b, units);
      assert BlockOk(t, r);
      var u := MergeNext(t, r);
      Enlist(u, r)
    else s
  }

  /** block_prepare_used */
  ghost function PrepareUsed(s: State, b: int, units: nat): State
    requires Tiling(s) && b in s.blk && b != s.end && units >= 3
  {
    assert BlockOk(s, b);
    if CanSplit(s.blk[b].units, units) then TilingSplit(s, b, units); Mark(TrimFree(s, b, units), b, false)
    else Mark(TrimFree(s, b, units), b, false)
  }

  // ---------------------------------------------------------------- operations

  /** tlsf_malloc; the block returned is NULL_BLOCK for a null result. */
  ghost function Malloc(s: State, size: nat): (State, int)
    requires Inv(s) && size < WORD_LIMIT
  {
    var adjust := AdjustRequestSize(size, ALIGN_SIZE);
    AdjustRequest(size);
    var b := Locate(s, adjust);
    if b == NULL_BLOCK then (s, NULL_BLOCK)
    else
      LocateFound(s, adjust);
      MidUnlist(s, b, {});
      (PrepareUsed(Unlist(s, b), b, adjust / 8), b)
  }

  /** The block tlsf_free starts from, marked free and joined to its predecessor. */
  ghost function FreeHead(s: State, b: int): (r: (State, int))
    requires Inv(s) && b in s.blk && b != s.end && !s.blk[b].free
    ensures Mid(r.0, {r.1}) && r.1 in r.0.blk && r.1 != r.0.end && r.0.blk[r.1].free && CoalescedBut(r.0, r.1)
    ensures r.0.end == s.end && Next(r.0, r.1) in r.0.blk
  {
    FreeMarks(s, b);
    var s1 := Mark(s, b, true);
    MergePrevMid(s1, b);
    var r := MergePrev(s1, b);
    assert BlockOk(r.0, r.1);
    r
  }

  /** tlsf_free of a live block. */
  ghost function Free(s: State, b: int): State
    requires Inv(s) && b in s.blk && b != s.end && !s.blk[b].free
  {
    var (t, c) := FreeHead(s, b);
    MergeNextMid(t, c);
    Enlist(MergeNext(t, c), c)
  }

  lemma FreeMarks(s: State, b: int)
    requires Inv(s) && b in s.blk && b != s.end && !s.blk[b].free
    ensures Next(s, b) in s.blk
    ensures var t := Mark(s, b, true);
      && Mid(t, {b}) && t.end == s.end
      && CoalescedAround(t, b)
  {
    MidMark(s, b, true, {});
    var t := Mark(s, b, true);
    assert {} + {b} == {b};
    forall x | x in t.blk && x != b && (x == t.end || Next(t, x) != b) ensures NotTwoFree(t, x) {
      assert NotTwoFree(s, x) && BlockOk(s, x);
    }
  }

  /** Byte address of the payload of block b, when word 0 is at address `base`. */
  function PayloadAddress(base: nat, b: int): int {
    base + 8 * (b + 2)
  }

  /** The loose free block memalign takes the request from, once the gap is given back. */
  ghost function MemalignHead(s: State, base: nat, align: nat, b: int): (State, int)
    requires Tiling(s) && b in s.blk && b != s.end && align > 0
  {
    assert BlockOk(s, b);
    TrimLeading(s, b, AlignGap(PayloadAddress(base, b), align) / 8)
  }

  /** tlsf_memalign */
  ghost function Memalign(s: State, base: nat, align: nat, size: nat): (State, int)
    requires Inv(s) && size < WORD_LIMIT && PowerOfTwo(align) && base % 8 == 0
  {
    var adjust := AdjustRequestSize(size, ALIGN_SIZE);
    MemalignSearch(align, size);
    var b := Locate(s, MemalignSize(align, size));
    if b == NULL_BLOCK then (s, NULL_BLOCK)
    else
      LocateFound(s, MemalignSize(align, size));
      MidUnlist(s, b, {});
      var (t, c) := MemalignHead(Unlist(s, b), base, align, b);
      MemalignHeadOk(s, base, align, size);
      (PrepareUsed(t, c, adjust / 8), c)
  }

  /** The call that spoils the heap: a size malloc refuses, for a block of 32 bytes or more. */
  ghost predicate Spoils(s: State, b: int, size: nat)
    requires b in s.blk
  {
    size > 0 && AdjustRequestSize(size, ALIGN_SIZE) == 0 && s.blk[b].units > 3
  }

  /** tlsf_realloc of a live block to a non-zero size. */
  ghost function Realloc(s: State, b: int, size: nat): (State, int)
    requires Inv(s) && b in s.blk && b != s.end && !s.blk[b].free
    requires 0 < size < WORD_LIMIT && !Spoils(s, b, size)
  {
    assert BlockOk(s, b) && BlockOk(s, Next(s, b));
    var adjust := AdjustRequestSize(size, ALIGN_SIZE);
    AdjustRequest(size);
    if ReallocMoves(s, b, adjust) then
      var (t, p) := Malloc(s, size);
      if p == NULL_BLOCK then (s, NULL_BLOCK)
      else
        MallocKeepsInv(s, size);
        MallocKeepsOthers(s, size, b);
        (Free(t, b), p)
    else
      (ResizeInPlace(s, b, adjust), b)
  }

  /** A used block that need not move, resized to an adjusted size. */
  ghost function ResizeInPlace(s: State, b: int, adjust: nat): State
    requires Inv(s) && b in s.blk && b != s.end && !s.blk[b].free && Next(s, b) in s.blk
    requires adjust >= BLOCK_SIZE_MIN || (adjust == 0 && s.blk[b].units == 3)
    requires !ReallocMoves(s, b, adjust)
  {
    if adjust > 8 * s.blk[b].units then
      GrowInv(s, b);
      TrimUsed(Grow(s, b), b, adjust / 8)
    else
      TrimUsed(s, b, adjust / 8)
  }

  /** Whether realloc must move the block to satisfy an adjusted size. */
  ghost predicate ReallocMoves(s: State, b: int, adjust: nat)
    requires b in s.blk && Next(s, b) in s.blk
  {
    var n := Next(s, b);
    adjust > 8 * s.blk[b].units && (!s.blk[n].free || adjust > 8 * s.blk[b].units + 8 * s.blk[n].units + 8)
  }

  /** A used block takes over its free successor. */
  ghost function Grow(s: State, b: int): State
    requires Tiling(s) && b in s.blk && b != s.end && Next(s, b) in s.blk && s.blk[Next(s, b)].free
  {
    assert BlockOk(s, b);
    var u := MergeNext(s, b);
    TilingUnlist(s, Next(s, b));
    assert BlockOk(s, Next(s, b));
    TilingAbsorb(Unlist(s, Next(s, b)), b);
    Mark(u, b, false)
  }

  // ---------------------------------------------------------------- each step in turn

  /** Only pairs that involve block `b` may be adjacent free blocks. */
  ghost predicate CoalescedAround(s: State, b: int) {
    forall x {:trigger NotTwoFree(s, x)} :: x in s.blk && x != b && (x == s.end || Next(s, x) != b) ==> NotTwoFree(s, x)
  }

  lemma MergePrevMid(s: State, b: int)
    requires Mid(s, {b}) && b in s.blk && b != s.end && s.blk[b].free
    requires CoalescedAround(s, b)
    ensures var (t, c) := MergePrev(s, b);
      Mid(t, {c}) && c in t.blk && c != t.end && t.end == s.end && t.blk[c].free && CoalescedBut(t, c)
  {
    var (t, c) := MergePrev(s, b);
    if b != FIRST && s.blk[b].prevFree {
      var p := c;
      assert FlagOk(s, p) && BlockOk(s, p) && BlockOk(s, b);
      MidUnlist(s, p, {b});
      var u := Unlist(s, p);
      MidAbsorb(u, p, {b} + {p});
      assert {b} + {p} - {b} == {p};
      forall x | x in t.blk && x != p ensures NotTwoFree(t, x) {
        assert BlockOk(s, x) && Ordered(s, x, p) && Ordered(s, p, x) && NotTwoFree(s, x);
      }
    } else {
      forall x | x in s.blk && x != b ensures NotTwoFree(s, x) {
        if x != s.end && Next(s, x) == b { assert FlagOk(s, x) && BlockOk(s, x); }
      }
    }
  }

  lemma MergeNextMid(s: State, b: int)
    requires Mid(s, {b}) && b in s.blk && b != s.end && s.blk[b].free && CoalescedBut(s, b)
    ensures Next(s, b) in s.blk
    ensures var t := MergeNext(s, b);
      Mid(t, {b}) && b in t.blk && b != t.end && t.blk[b].free && Coalesced(t)
  {
    var n := Next(s, b);
    assert BlockOk(s, b);
    assert BlockOk(s, n);
    var t := MergeNext(s, b);
    if s.blk[n].free {
      assert NotTwoFree(s, n);
      MidUnlist(s, n, {b});
      MidAbsorb(Unlist(s, n), b, {b} + {n});
      assert {b} + {n} - {n} == {b};
      forall x | x in t.blk ensures NotTwoFree(t, x) {
        if x != b { assert BlockOk(s, x) && Ordered(s, x, b) && Ordered(s, b, x) && NotTwoFree(s, x); }
      }
    } else {
      forall x | x in s.blk ensures NotTwoFree(s, x) { }
    }
  }

  lemma FreeKeepsInv(s: State, b: int)
    requires Inv(s) && b in s.blk && b != s.end && !s.blk[b].free
    ensures Inv(Free(s, b))
  {
    var (t, c) := FreeHead(s, b);
    MergeNextMid(t, c);
    var u := MergeNext(t, c);
    MidEnlist(u, c, {c});
    CoalescedSameBlocks(u, Enlist(u, c));
    assert {c} - {c} == {};
  }

  /** Block `c` of `t`, in use and of at least `bytes` bytes, was cut from free block `b` of `s`. */
  ghost predicate ServedFrom(s: State, t: State, b: int, c: int, bytes: nat) {
    && b in s.blk && s.blk[b].free
    && c in t.blk && c != t.end && !t.blk[c].free && 8 * t.blk[c].units >= bytes
    && b <= c && Next(t, c) <= Next(s, b)
  }

  /** Being coalesced around a block does not depend on the lists. */
  lemma AroundSameBlocks(s: State, t: State, b: int)
    requires CoalescedAround(s, b) && t.blk == s.blk && t.end == s.end
    ensures CoalescedAround(t, b)
  {
    forall x | x in t.blk && x != b && (x == t.end || Next(t, x) != b) ensures NotTwoFree(t, x) {
      assert NotTwoFree(s, x);
    }
  }

  lemma SplitAround(s: State, b: int, units: nat)
    requires Tiling(s) && b in s.blk && b != s.end && s.blk[b].free && 3 <= units && units + 4 <= s.blk[b].units
    requires CoalescedAround(s, b) && NotTwoFree(s, b)
    ensures Next(s, b) in s.blk && CoalescedAround(Split(s, b, units), b)
  {
    TilingSplit(s, b, units);
    var t, r := Split(s, b, units), Rest(b, units);
    forall x | x in t.blk && x != b && (x == t.end || Next(t, x) != b) ensures NotTwoFree(t, x) {
      if x != r { assert NotTwoFree(s, x) && BlockOk(s, x) && Ordered(s, x, b) && Ordered(s, b, x); }
    }
  }

  lemma TrimFreeMid(s: State, b: int, units: nat)
    requires Mid(s, {b}) && b in s.blk && b != s.end && s.blk[b].free && units >= 3
    requires CoalescedAround(s, b) && NotTwoFree(s, b)
    ensures Next(s, b) in s.blk
    ensures var t := TrimFree(s, b, units);
      && Mid(t, {b}) && CoalescedAround(t, b) && t.end == s.end && b in t.blk && t.blk[b].free
      && (s.blk[b].units >= units ==> t.blk[b].units >= units) && Next(t, b) <= Next(s, b)
  {
    assert BlockOk(s, b);
    if CanSplit(s.blk[b].units, units) {
      MidSplit(s, b, units, {b});
      SplitAround(s, b, units);
      var t, r := Split(s, b, units), Rest(b, units);
      MidEnlist(t, r, {b} + {r});
      assert {b} + {r} - {r} == {b};
      AroundSameBlocks(t, Enlist(t, r), b);
    }
  }

  lemma MarkUsedInv(s: State, b: int)
    requires Mid(s, {b}) && b in s.blk && b != s.end && s.blk[b].free && CoalescedAround(s, b)
    ensures Next(s, b) in s.blk && Inv(Mark(s, b, false))
  {
    MidMark(s, b, false, {b});
    assert {b} - {b} == {};
    var t := Mark(s, b, false);
    forall x | x in t.blk ensures NotTwoFree(t, x) {
      if x != b && (x == s.end || Next(s, x) != b) { assert NotTwoFree(s, x) && BlockOk(s, x); }
    }
  }

  /** Taking a loose free block into use after giving its tail back restores the invariant. */
  lemma PrepareUsedInv(s: State, b: int, units: nat)
    requires Mid(s, {b}) && b in s.blk && b != s.end && s.blk[b].free && units >= 3
    requires CoalescedAround(s, b) && NotTwoFree(s, b)
    ensures var t := PrepareUsed(s, b, units);
      && Inv(t) && t.end == s.end && b in t.blk && b != t.end && !t.blk[b].free
      && (s.blk[b].units >= units ==> t.blk[b].units >= units) && Next(t, b) <= Next(s, b)
  {
    TrimFreeMid(s, b, units);
    MarkUsedInv(TrimFree(s, b, units), b);
  }

  lemma MallocKeepsInv(s: State, size: nat)
    requires Inv(s) && size < WORD_LIMIT
    ensures var (t, b) := Malloc(s, size);
      && Inv(t) && t.end == s.end
      && (b != NULL_BLOCK ==> ServedFrom(s, t, b, b, AdjustRequestSize(size, ALIGN_SIZE)))
  {
    var adjust := AdjustRequestSize(size, ALIGN_SIZE);
    AdjustRequest(size);
    var b := Locate(s, adjust);
    if b != NULL_BLOCK {
      LocateFound(s, adjust);
      MidUnlist(s, b, {});
      var u := Unlist(s, b);
      assert {} + {b} == {b};
      CoalescedSameBlocks(s, u);
      PrepareUsedInv(u, b, adjust / 8);
    }
  }

  // ---------------------------------------------------------------- memalign

  lemma MemalignSearch(align: nat, size: nat)
    requires size < WORD_LIMIT && PowerOfTwo(align)
    ensures var adjust := AdjustRequestSize(size, ALIGN_SIZE);
      && align > 0 && MemalignSize(align, size) % 8 == 0 && adjust % 8 == 0
      && (adjust == 0 ==> MemalignSize(align, size) == 0) && (adjust != 0 ==> adjust >= BLOCK_SIZE_MIN)
  {
    PowerOfTwoCases(align);
    AdjustRequest(size);
    if align > ALIGN_SIZE && AdjustRequestSize(size, ALIGN_SIZE) != 0 { MemalignSizeExact(align, size); }
  }

  lemma TrimLeadingMid(s: State, b: int, gap: nat)
    requires Mid(s, {b}) && b in s.blk && b != s.end && s.blk[b].free && Coalesced(s)
    requires gap == 0 || gap >= 4
    ensures Next(s, b) in s.blk
    ensures var (t, c) := TrimLeading(s, b, gap);
      && Mid(t, {c}) && t.end == s.end && c in t.blk && c != t.end && t.blk[c].free
      && CoalescedAround(t, c) && NotTwoFree(t, c) && Next(t, c) == Next(s, b)
      && c == (if CanSplit(s.blk[b].units, gap) then b + gap else b)
  {
    assert BlockOk(s, b);
    assert NotTwoFree(s, b);
    if gap > 0 && CanSplit(s.blk[b].units, gap) {
      MidSplit(s, b, gap - 1, {b});
      var t, r := Split(s, b, gap - 1), b + gap;
      assert r == Rest(b, gap - 1);
      MidEnlist(t, b, {b} + {r});
      assert {b} + {r} - {b} == {r};
      var u := Enlist(t, b);
      forall x | x in u.blk && x != r && (x == u.end || Next(u, x) != r) ensures NotTwoFree(u, x) {
        assert NotTwoFree(s, x) && BlockOk(s, x) && Ordered(s, x, b) && Ordered(s, b, x);
      }
    } else {
      forall x | x in s.blk ensures NotTwoFree(s, x) { }
    }
  }

  lemma AlignGapSmall(ptr: nat, align: nat)
    requires PowerOfTwo(align) && align <= ALIGN_SIZE && ptr % 8 == 0
    ensures AlignGap(ptr, align) == 0 && ptr % align == 0
  {
    hide AlignPtr, PowerOfTwo;
    PowerOfTwoCases(align);
    DividesEight(ptr, align);
    MultipleUnique(AlignPtr(ptr, align), ptr, align);
  }

  lemma DividesEight(ptr: nat, align: nat)
    requires (align == 1 || align == 2 || align == 4 || align == 8) && ptr % 8 == 0
    ensures ptr % align == 0
  {
    var q := ptr / 8;
    var k := if align == 1 then 8 else if align == 2 then 4 else if align == 4 then 2 else 1;
    DivModUnique(ptr, align, k * q, 0);
  }

  /** The gap in front of a block of `units` units found for memalign: it is 0 or can hold a
      block, the leading split is possible, and what is left holds the request. */
  lemma MemalignFits(ptr: nat, align: nat, size: nat, units: nat)
    requires size < WORD_LIMIT && PowerOfTwo(align) && ptr % 8 == 0
    requires MemalignSize(align, size) != 0 && 8 * units >= MemalignSize(align, size)
    ensures var gap := AlignGap(ptr, align);
      && gap % 8 == 0 && (gap == 0 || gap >= HEADER_SIZE)
      && (align < 0x8000_0000_0000_0000 ==>
            && (ptr + gap) % align == 0 && (gap > 0 ==> CanSplit(units, gap / 8))
            && 8 * units - gap >= AdjustRequestSize(size, ALIGN_SIZE))
  {
    AdjustRequest(size);
    if align > ALIGN_SIZE {
      PowerOfTwoCases(align);
      AlignGapBounds(ptr, align);
      if align < 0x8000_0000_0000_0000 { MemalignSizeExact(align, size); }
    } else {
      AlignGapSmall(ptr, align);
    }
  }

  /** The leading split of memalign: it is always possible when a gap is needed and the search
      size did not wrap, and what is left still holds the request. */
  lemma MemalignHeadOk(s: State, base: nat, align: nat, size: nat)
    requires Inv(s) && size < WORD_LIMIT && PowerOfTwo(align) && base % 8 == 0
    requires MemalignSize(align, size) % 8 == 0 && Locate(s, MemalignSize(align, size)) != NULL_BLOCK
    ensures var b := Locate(s, MemalignSize(align, size)); b in s.blk && b != s.end && b >= 0 && Tiling(Unlist(s, b))
    ensures var b := Locate(s, MemalignSize(align, size));
      var gap := AlignGap(PayloadAddress(base, b), align);
      var (t, c) := MemalignHead(Unlist(s, b), base, align, b);
      && Mid(t, {c}) && t.end == s.end && c in t.blk && c != t.end && t.blk[c].free && b <= c
      && CoalescedAround(t, c) && NotTwoFree(t, c) && Next(t, c) == Next(s, b)
      && gap % 8 == 0 && (gap == 0 || gap >= HEADER_SIZE)
      && (align < 0x8000_0000_0000_0000 ==>
            && (gap > 0 ==> CanSplit(s.blk[b].units, gap / 8))
            && PayloadAddress(base, c) == PayloadAddress(base, b) + gap
            && PayloadAddress(base, c) % align == 0
            && 8 * t.blk[c].units >= AdjustRequestSize(size, ALIGN_SIZE))
  {
    hide Listed, AlignGap, AdjustRequestSize;
    var m := MemalignSize(align, size);
    var b := Locate(s, m);
    LocateFound(s, m);
    MidUnlist(s, b, {});
    var u := Unlist(s, b);
    assert {} + {b} == {b};
    assert BlockOk(s, b);
    CoalescedSameBlocks(s, u);
    MemalignFits(PayloadAddress(base, b), align, size, s.blk[b].units);
    TrimLeadingMid(u, b, AlignGap(PayloadAddress(base, b), align) / 8);
  }

  lemma CoalescedSameBlocks(s: State, t: State)
    requires Coalesced(s) && t.blk == s.blk && t.end == s.end
    ensures Coalesced(t)
  {
    forall x | x in t.blk ensures NotTwoFree(t, x) { assert NotTwoFree(s, x); }
  }

  lemma MemalignKeepsInv(s: State, base: nat, align: nat, size: nat)
    requires Inv(s) && size < WORD_LIMIT && PowerOfTwo(align) && base % 8 == 0
    ensures var (t, c) := Memalign(s, base, align, size);
      && Inv(t) && t.end == s.end
      && (c != NULL_BLOCK ==> c in t.blk && c != t.end && !t.blk[c].free)
  {
    MemalignSearch(align, size);
    var m, adjust := MemalignSize(align, size), AdjustRequestSize(size, ALIGN_SIZE);
    var b := Locate(s, m);
    if b != NULL_BLOCK {
      MemalignHeadOk(s, base, align, size);
      var (t, c) := MemalignHead(Unlist(s, b), base, align, b);
      PrepareUsedInv(t, c, adjust / 8);
    }
  }

  /** For every power of two but 2^63 the block memalign returns is aligned and large enough. */
  lemma MemalignServes(s: State, base: nat, align: nat, size: nat)
    requires Inv(s) && size < WORD_LIMIT && PowerOfTwo(align) && base % 8 == 0
    requires align < 0x8000_0000_0000_0000
    ensures var (t, c) := Memalign(s, base, align, size);
      c != NULL_BLOCK ==>
        && PayloadAddress(base, c) % align == 0
        && ServedFrom(s, t, Locate(s, MemalignSize(align, size)), c, AdjustRequestSize(size, ALIGN_SIZE))
  {
    MemalignSearch(align, size);
    var m, adjust := MemalignSize(align, size), AdjustRequestSize(size, ALIGN_SIZE);
    var b := Locate(s, m);
    if b != NULL_BLOCK {
      LocateFound(s, m);
      MemalignHeadOk(s, base, align, size);
      var (t, c) := MemalignHead(Unlist(s, b), base, align, b);
      PrepareUsedInv(t, c, adjust / 8);
    }
  }

  // ---------------------------------------------------------------- realloc

  /** Block x keeps its place, size and status. */
  ghost predicate Survives(s: State, t: State, x: int) {
    x in s.blk && x in t.blk && t.blk[x].units == s.blk[x].units && t.blk[x].free == s.blk[x].free
  }

  lemma PrepareKeepsOthers(s: State, b: int, units: nat, x: int)
    requires Tiling(s) && b in s.blk && b != s.end && units >= 3 && x in s.blk && x != b
    ensures Survives(s, PrepareUsed(s, b, units), x)
  {
    assert BlockOk(s, b);
    if CanSplit(s.blk[b].units, units) {
      TilingSplit(s, b, units);
      assert Survives(s, TrimFree(s, b, units), x);
    }
  }

  lemma MallocKeepsOthers(s: State, size: nat, x: int)
    requires Inv(s) && size < WORD_LIMIT && x in s.blk && !s.blk[x].free
    ensures var (t, b) := Malloc(s, size); Survives(s, t, x) && x != b
  {
    var adjust := AdjustRequestSize(size, ALIGN_SIZE);
    AdjustRequest(size);
    var b := Locate(s, adjust);
    assert BlockOk(s, x);
    if b != NULL_BLOCK {
      LocateFound(s, adjust);
      TilingUnlist(s, b);
      PrepareKeepsOthers(Unlist(s, b), b, adjust / 8, x);
    }
  }

  lemma GrowInv(s: State, b: int)
    requires Inv(s) && b in s.blk && b != s.end && !s.blk[b].free
    requires Next(s, b) in s.blk && s.blk[Next(s, b)].free
    ensures var t := Grow(s, b);
      && Inv(t) && t.end == s.end && b in t.blk && !t.blk[b].free
      && t.blk[b].units == s.blk[b].units + s.blk[Next(s, b)].units + 1
  {
    var n := Next(s, b);
    assert BlockOk(s, b) && BlockOk(s, n);
    MidUnlist(s, n, {});
    assert {} + {n} == {n};
    GrownNeighbours(s, b);
    GrownTiled(s, b);
    var g, t := Grown(s, b), Grow(s, b);
    assert t.blk == g.blk;
    CoalescedSameBlocks(g, t);
    forall x | x in t.blk ensures FlagOk(t, x) { assert FlagOk(g, x); }
    ListedOther(Unlist(s, n), t, {n}, {});
  }

  lemma GrownTiled(s: State, b: int)
    requires Tiling(s) && b in s.blk && b != s.end && !s.blk[b].free && Next(s, b) in s.blk && s.blk[Next(s, b)].free
    ensures Next(s, Next(s, b)) in s.blk && Tiling(Grow(s, b))
  {
    var n := Next(s, b);
    assert BlockOk(s, b) && BlockOk(s, n);
    TilingUnlist(s, n);
    var u := Unlist(s, n);
    TilingAbsorb(u, b);
    TilingMark(Absorb(u, b), b, false);
  }

  /** The blocks after block b has taken over its successor. */
  ghost function Grown(s: State, b: int): State
    requires b in s.blk && Next(s, b) in s.blk && Next(s, Next(s, b)) in s.blk
  {
    var n := Next(s, b);
    var e := Next(s, n);
    s.(blk := (s.blk - {n})[b := s.blk[b].(units := s.blk[b].units + s.blk[n].units + 1)]
                           [e := s.blk[e].(prevFree := false)])
  }

  lemma GrownNeighbours(s: State, b: int)
    requires Tiling(s) && Coherent(s) && Coalesced(s) && b in s.blk && b != s.end && !s.blk[b].free
    requires Next(s, b) in s.blk && s.blk[Next(s, b)].free
    ensures Next(s, Next(s, b)) in s.blk && Coherent(Grown(s, b)) && Coalesced(Grown(s, b))
  {
    var n := Next(s, b);
    assert BlockOk(s, b) && BlockOk(s, n) && NotTwoFree(s, n);
    var t := Grown(s, b);
    forall x | x in t.blk ensures FlagOk(t, x) && NotTwoFree(t, x) {
      assert FlagOk(s, x) && BlockOk(s, x) && NotTwoFree(s, x);
      assert Ordered(s, x, b) && Ordered(s, b, x) && Ordered(s, x, n) && Ordered(s, n, x);
    }
    assert BlockOk(s, FIRST);
  }

  lemma TrimUsedInv(s: State, b: int, units: nat)
    requires Inv(s) && b in s.blk && b != s.end && !s.blk[b].free && 3 <= units <= s.blk[b].units
    ensures var t := TrimUsed(s, b, units);
      && Inv(t) && t.end == s.end && b in t.blk && !t.blk[b].free && units <= t.blk[b].units <= s.blk[b].units
  {
    if CanSplit(s.blk[b].units, units) {
      MidSplit(s, b, units, {});
      var t, r := Split(s, b, units), Rest(b, units);
      assert {} + {r} == {r};
      forall x | x in t.blk && x != r ensures NotTwoFree(t, x) {
        assert BlockOk(s, x) && Ordered(s, x, b) && Ordered(s, b, x) && NotTwoFree(s, x);
      }
      MergeNextMid(t, r);
      var u := MergeNext(t, r);
      MidEnlist(u, r, {r});
      assert {r} - {r} == {};
      CoalescedSameBlocks(u, Enlist(u, r));
    }
  }

  lemma ReallocKeepsInv(s: State, b: int, size: nat)
    requires Inv(s) && b in s.blk && b != s.end && !s.blk[b].free
    requires 0 < size < WORD_LIMIT && !Spoils(s, b, size)
    ensures var (t, c) := Realloc(s, b, size);
      && Inv(t) && t.end == s.end
      && (c != NULL_BLOCK ==>
            c in t.blk && c != t.end && !t.blk[c].free && 8 * t.blk[c].units >= AdjustRequestSize(size, ALIGN_SIZE))
      && (c == NULL_BLOCK ==> t == s)
  {
    assert BlockOk(s, b) && BlockOk(s, Next(s, b));
    var adjust := AdjustRequestSize(size, ALIGN_SIZE);
    AdjustRequest(size);
    if ReallocMoves(s, b, adjust) {
      var (t, p) := Malloc(s, size);
      MallocKeepsInv(s, size);
      MallocKeepsOthers(s, size, b);
      if p != NULL_BLOCK {
        FreeKeepsInv(t, b);
        FreeKeepsOthers(t, b, p);
      }
    } else if adjust > 8 * s.blk[b].units {
      GrowInv(s, b);
      TrimUsedInv(Grow(s, b), b, adjust / 8);
    } else if adjust != 0 {
      TrimUsedInv(s, b, adjust / 8);
    }
  }

  /** Freeing a block leaves the other live blocks as they are. */
  lemma FreeKeepsOthers(s: State, b: int, x: int)
    requires Inv(s) && b in s.blk && b != s.end && !s.blk[b].free
    requires x in s.blk && !s.blk[x].free && x != b
    ensures Survives(s, Free(s, b), x) && (Live(s, x) ==> Live(Free(s, b), x))
  {
    FreeHeadKeepsOthers(s, b, x);
    var (t, c) := FreeHead(s, b);
    FreeTailKeepsOthers(t, c, x);
  }

  lemma FreeTailKeepsOthers(t: State, c: int, x: int)
    requires c in t.blk && Next(t, c) in t.blk
    requires x in t.blk && !t.blk[x].free && x != c && Next(t, c) != c
    ensures c in MergeNext(t, c).blk && Survives(t, Enlist(MergeNext(t, c), c), x)
  {
  }

  lemma FreeHeadKeepsOthers(s: State, b: int, x: int)
    requires Inv(s) && b in s.blk && b != s.end && !s.blk[b].free
    requires x in s.blk && !s.blk[x].free && x != b
    ensures var (t, c) := FreeHead(s, b); Survives(s, t, x) && x != c
  {
    FreeMarks(s, b);
    FreeHeadFree(s, b);
    assert Survives(s, Mark(s, b, true), x);
  }

  lemma FreeHeadFree(s: State, b: int)
    requires Inv(s) && b in s.blk && b != s.end && !s.blk[b].free
    ensures var c := FreeHead(s, b).1; c == b || (c in s.blk && s.blk[c].free)
  {
    FreeMarks(s, b);
    var s1 := Mark(s, b, true);
    assert BlockOk(s, b);
    if b != FIRST && s1.blk[b].prevFree {
      var p := Prev(s1, b);
      assert FlagOk(s1, p) && BlockOk(s1, p);
    }
  }

  lemma MemalignKeepsOthers(s: State, base: nat, align: nat, size: nat, x: int)
    requires Inv(s) && size < WORD_LIMIT && PowerOfTwo(align) && base % 8 == 0 && x in s.blk && !s.blk[x].free
    ensures var (t, c) := Memalign(s, base, align, size); Survives(s, t, x) && x != c
  {
    MemalignSearch(align, size);
    var m, adjust := MemalignSize(align, size), AdjustRequestSize(size, ALIGN_SIZE);
    var b := Locate(s, m);
    assert BlockOk(s, x);
    if b != NULL_BLOCK {
      LocateFound(s, m);
      MemalignHeadOk(s, base, align, size);
      var gap := AlignGap(PayloadAddress(base, b), align) / 8;
      var u := Unlist(s, b);
      LeadingKeepsOthers(u, b, gap, x);
      var (t, c) := TrimLeading(u, b, gap);
      PrepareKeepsOthers(t, c, adjust / 8, x);
    }
  }

  lemma LeadingKeepsOthers(s: State, b: int, gap: nat, x: int)
    requires Tiling(s) && b in s.blk && b != s.end && (gap == 0 || gap >= 4) && x in s.blk && x != b
    ensures Next(s, b) in s.blk
    ensures var (t, c) := TrimLeading(s, b, gap); Survives(s, t, x) && x != c
  {
    assert BlockOk(s, b);
    if gap > 0 && CanSplit(s.blk[b].units, gap) { TilingSplit(s, b, gap - 1); }
  }

  lemma TrimUsedKeepsOthers(s: State, b: int, units: nat, x: int)
    requires Inv(s) && b in s.blk && b != s.end && !s.blk[b].free && units >= 3
    requires x in s.blk && !s.blk[x].free && x != b
    ensures Survives(s, TrimUsed(s, b, units), x)
  {
    if CanSplit(s.blk[b].units, units) {
      TilingSplit(s, b, units);
      var t, r := Split(s, b, units), Rest(b, units);
      assert Survives(s, t, x);
      assert BlockOk(t, r);
      assert Survives(t, MergeNext(t, r), x);
    }
  }

  /** A realloc leaves the other live blocks as they are. */
  lemma ReallocKeepsOthers(s: State, b: int, size: nat, x: int)
    requires Inv(s) && b in s.blk && b != s.end && !s.blk[b].free
    requires 0 < size < WORD_LIMIT && !Spoils(s, b, size)
    requires x in s.blk && !s.blk[x].free && x != b
    ensures var (t, c) := Realloc(s, b, size); Survives(s, t, x) && x != c
  {
    assert BlockOk(s, b) && BlockOk(s, Next(s, b)) && BlockOk(s, x);
    var adjust := AdjustRequestSize(size, ALIGN_SIZE);
    AdjustRequest(size);
    if ReallocMoves(s, b, adjust) {
      MallocKeepsInv(s, size);
      MallocKeepsOthers(s, size, b);
      MallocKeepsOthers(s, size, x);
      var (t, p) := Malloc(s, size);
      if p != NULL_BLOCK { FreeKeepsOthers(t, b, x); }
    } else if adjust > 8 * s.blk[b].units {
      GrowInv(s, b);
      assert Survives(s, Grow(s, b), x);
      TrimUsedKeepsOthers(Grow(s, b), b, adjust / 8, x);
    } else if adjust != 0 {
      TrimUsedKeepsOthers(s, b, adjust / 8, x);
    }
  }
}
