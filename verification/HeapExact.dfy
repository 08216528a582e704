/** When a request is served, from which block, with how many bytes, and which blocks are live afterwards:
    what each operation does, in terms of the heap before it alone. */
module HeapExact {
  import opened Bits
  import opened Mapping
  import opened FreeList
  import opened Blocks
  import opened HeapSpec

  // ---------------------------------------------------------------- the search

  /** Free block x is filed where every block has at least `need` bytes. */
  ghost predicate Suits(s: State, need: nat, x: int) {
    x in s.blk && s.blk[x].free && UnitClass(s.blk[x].units) >= FirstSufficient(need)
  }

  ghost predicate NoneSuits(s: State, need: nat) {
    forall x :: !Suits(s, need, x)
  }

  /** b was filed last of the smallest class that suits. */
  ghost predicate GoodFit(s: State, need: nat, b: int) {
    && Suits(s, need, b)
    && (forall x :: Suits(s, need, x) ==> UnitClass(s.blk[b].units) <= UnitClass(s.blk[x].units))
    && UnitClass(s.blk[b].units) < |s.lists|
    && s.lists[UnitClass(s.blk[b].units)] != [] && s.lists[UnitClass(s.blk[b].units)][0] == b
  }

  lemma LocateIs(s: State, need: nat)
    requires Inv(s) && need > 0 && need % 8 == 0
    ensures var b := Locate(s, need);
      if NoneSuits(s, need) then b == NULL_BLOCK else b != NULL_BLOCK && GoodFit(s, need, b)
  {
    hide FirstSufficient, UnitClass;
    LocateFails(s, need);
    var b := Locate(s, need);
    if b != NULL_BLOCK {
      LocateFound(s, need);
      forall x | Suits(s, need, x) ensures UnitClass(s.blk[b].units) <= UnitClass(s.blk[x].units) {
        assert OnList(s, x, {});
      }
      assert Suits(s, need, b);
    }
  }

  /** No block suits a request of 2^32 bytes or more. */
  lemma HugeSuitsNone(s: State, need: nat)
    requires Inv(s) && need >= BLOCK_SIZE_MAX
    ensures NoneSuits(s, need)
  {
    hide UnitClass, FirstSufficient;
    forall x ensures !Suits(s, need, x) {
      if Suits(s, need, x) {
        ClassFits(s, x);
        SuitsIsEnough(s, need, x);
      }
    }
  }

  lemma SuitsIsEnough(s: State, need: nat, x: int)
    requires Suits(s, need, x)
    ensures 8 * s.blk[x].units >= need
  {
    SearchSound(need, 8 * s.blk[x].units);
  }

  // ---------------------------------------------------------------- which blocks are live

  /** The live blocks of t are those of s and c. */
  ghost predicate LivePlus(s: State, t: State, c: int) {
    forall x :: Live(t, x) <==> Live(s, x) || x == c
  }

  /** The live blocks of t are those of s but b. */
  ghost predicate LiveMinus(s: State, t: State, b: int) {
    forall x :: Live(t, x) <==> Live(s, x) && x != b
  }

  /** The live blocks of t are those of s, with c in place of b. */
  ghost predicate LiveMoved(s: State, t: State, b: int, c: int) {
    forall x :: Live(t, x) <==> (Live(s, x) && x != b) || x == c
  }

  ghost predicate SameLive(s: State, t: State) {
    forall x :: Live(t, x) <==> Live(s, x)
  }

  /** What is left of a block of `units` units once the tail behind `request` units is given back, if that
      has room for a block. */
  function Trimmed(units: int, request: nat): int {
    if units >= request + 4 then request else units
  }

  lemma PrepareExact(s: State, b: int, units: nat)
    requires Tiling(s) && b in s.blk && b != s.end && s.blk[b].free && units >= 3
    ensures var t := PrepareUsed(s, b, units);
      && b in t.blk && t.end == s.end && t.blk[b].units == Trimmed(s.blk[b].units, units) && LivePlus(s, t, b)
  {
    assert BlockOk(s, b);
    if CanSplit(s.blk[b].units, units) { TilingSplit(s, b, units); }
  }

  lemma LeadingExact(s: State, b: int, gap: nat)
    requires Tiling(s) && b in s.blk && b != s.end && s.blk[b].free && (gap == 0 || gap >= 4)
    ensures Next(s, b) in s.blk
    ensures var (t, c) := TrimLeading(s, b, gap);
      && c == (if CanSplit(s.blk[b].units, gap) then b + gap else b) && t.end == s.end
      && c in t.blk && t.blk[c].units == s.blk[b].units - (c - b) && SameLive(s, t)
  {
    assert BlockOk(s, b);
    if gap > 0 && CanSplit(s.blk[b].units, gap) { TilingSplit(s, b, gap - 1); }
  }

  lemma FreeExact(s: State, b: int)
    requires Inv(s) && Live(s, b)
    ensures LiveMinus(s, Free(s, b), b) && Free(s, b).end == s.end
  {
    FreeMarks(s, b);
    var s1 := Mark(s, b, true);
    assert LiveMinus(s, s1, b);
    MergePrevMid(s1, b);
    MergePrevLive(s1, b);
    var (t, c) := FreeHead(s, b);
    FreeTailLive(t, c);
  }

  lemma FreeTailLive(t: State, c: int)
    requires Mid(t, {c}) && c in t.blk && c != t.end && t.blk[c].free && CoalescedBut(t, c)
    ensures Next(t, c) in t.blk && c in MergeNext(t, c).blk
    ensures var u := Enlist(MergeNext(t, c), c); SameLive(t, u) && u.end == t.end
  {
    MergeNextMid(t, c);
    assert BlockOk(t, Next(t, c));
  }

  lemma MergePrevLive(s: State, b: int)
    requires Mid(s, {b}) && b in s.blk && b != s.end && s.blk[b].free
    ensures SameLive(s, MergePrev(s, b).0)
  {
    if b != FIRST && s.blk[b].prevFree {
      assert FlagOk(s, Prev(s, b));
    }
  }

  // ---------------------------------------------------------------- malloc

  /** malloc returns null exactly when there is no request or no free block of a sufficient class. Otherwise
      it takes the block filed last of the smallest such class, gives all but the adjusted size back when
      the rest has room for a block, and makes no other block live. */
  lemma MallocExact(s: State, size: nat)
    requires Inv(s) && size < WORD_LIMIT
    ensures var adjust := AdjustRequestSize(size, ALIGN_SIZE);
      var (t, b) := Malloc(s, size);
      if adjust == 0 || NoneSuits(s, adjust) then b == NULL_BLOCK && t == s
      else
        && b != NULL_BLOCK && GoodFit(s, adjust, b) && LivePlus(s, t, b)
        && t.blk[b].units == Trimmed(s.blk[b].units, adjust / 8)
        && adjust <= 8 * t.blk[b].units < adjust + HEADER_SIZE
  {
    hide UnitClass, FirstSufficient, PrepareUsed, Suits, AdjustRequestSize;
    var adjust := AdjustRequestSize(size, ALIGN_SIZE);
    AdjustRequest(size);
    if adjust != 0 {
      LocateIs(s, adjust);
      var b := Locate(s, adjust);
      if b != NULL_BLOCK {
        LocateFound(s, adjust);
        TilingUnlist(s, b);
        PrepareExact(Unlist(s, b), b, adjust / 8);
      }
    }
  }

  // ---------------------------------------------------------------- memalign

  /** memalign returns null exactly when there is no request or no free block of a class sufficient for the
      number searched for. Otherwise it takes the block filed last of the smallest such class, moves on by
      the gap to the alignment, and gives the rest back like malloc. */
  lemma MemalignExact(s: State, base: nat, align: nat, size: nat, need: nat)
    requires Inv(s) && size < WORD_LIMIT && PowerOfTwo(align) && base % 8 == 0
    requires SearchFor(align, AdjustRequestSize(size, ALIGN_SIZE), need)
    ensures var adjust := AdjustRequestSize(size, ALIGN_SIZE);
      var (t, c) := Memalign(s, base, align, size);
      if adjust == 0 || NoneSuits(s, need) then c == NULL_BLOCK && t == s
      else c != NULL_BLOCK && exists b :: GoodFit(s, need, b) && Carved(s, t, base, align, adjust, b, c)
  {
    hide UnitClass, FirstSufficient, PrepareUsed, Suits, AdjustRequestSize, TrimLeading, AlignGap, PowerOfTwo;
    var adjust := AdjustRequestSize(size, ALIGN_SIZE);
    MemalignSearch(align, size);
    if adjust != 0 {
      MemalignSizeIs(align, size, need);
      if need >= BLOCK_SIZE_MAX {
        HugeSuitsNone(s, need);
      } else {
        LocateIs(s, need);
        var b := Locate(s, need);
        if b != NULL_BLOCK {
          LocateFound(s, need);
          CarvedOut(s, base, align, size, b);
        }
      }
    }
  }

  /** Block c, of at least `adjust` bytes and less than 32 more, was cut from free block b at the least gap
      from its payload to the alignment; for alignment 2^63 only the size of the block is certain. */
  ghost predicate Carved(s: State, t: State, base: nat, align: nat, adjust: nat, b: int, c: int)
    requires align > 0
  {
    && b in s.blk && b >= 0 && LivePlus(s, t, c) && c in t.blk && 8 * t.blk[c].units < adjust + HEADER_SIZE
    && (align != 0x8000_0000_0000_0000 ==>
          var gap := AlignGap(PayloadAddress(base, b), align);
          && PayloadAddress(base, c) == PayloadAddress(base, b) + gap
          && t.blk[c].units == Trimmed(s.blk[b].units - gap / 8, adjust / 8)
          && 8 * t.blk[c].units >= adjust)
  }

  lemma CarvedOut(s: State, base: nat, align: nat, size: nat, b: int)
    requires Inv(s) && size < WORD_LIMIT && PowerOfTwo(align) && base % 8 == 0
    requires b == Locate(s, MemalignSize(align, size)) && b != NULL_BLOCK
    requires AdjustRequestSize(size, ALIGN_SIZE) != 0
    ensures b in s.blk
    ensures var (t, c) := Memalign(s, base, align, size);
      c != NULL_BLOCK && Carved(s, t, base, align, AdjustRequestSize(size, ALIGN_SIZE), b, c)
  {
    hide PrepareUsed, AdjustRequestSize, TrimLeading, AlignGap, PowerOfTwo, Listed, MemalignSize, Locate;
    var adjust := AdjustRequestSize(size, ALIGN_SIZE);
    MemalignSearch(align, size);
    PowerOfTwoCases(align);
    LocateFound(s, MemalignSize(align, size));
    MemalignHeadOk(s, base, align, size);
    var gap := AlignGap(PayloadAddress(base, b), align);
    TilingUnlist(s, b);
    LeadingExact(Unlist(s, b), b, gap / 8);
    var (t, c) := MemalignHead(Unlist(s, b), base, align, b);
    PrepareExact(t, c, adjust / 8);
    assert BlockOk(s, b);
  }

  // ---------------------------------------------------------------- realloc

  /** The adjusted size fits the block, or the block with its free successor. */
  ghost predicate FitsInPlace(s: State, b: int, adjust: nat)
    requires b in s.blk
  {
    var n := Next(s, b);
    || adjust <= 8 * s.blk[b].units
    || (n in s.blk && s.blk[n].free && adjust <= 8 * s.blk[b].units + 8 + 8 * s.blk[n].units)
  }

  /** Realloc of a live block, for every size that does not lose the heap: the pointer stays exactly when
      the adjusted size fits in place; null comes back, and nothing changes, exactly when it does not and no
      free block suits; otherwise the block moves as malloc places it. What is returned holds the adjusted
      size and less than 32 bytes more, and is the only block to become live. */
  lemma ReallocExact(s: State, b: int, size: nat)
    requires Inv(s) && Live(s, b) && 0 < size < WORD_LIMIT && !Spoils(s, b, size)
    ensures var adjust := AdjustRequestSize(size, ALIGN_SIZE);
      var (t, c) := Realloc(s, b, size);
      && (c == b <==> FitsInPlace(s, b, adjust))
      && (c == NULL_BLOCK <==> !FitsInPlace(s, b, adjust) && NoneSuits(s, adjust))
      && if c == NULL_BLOCK then t == s
         else
           && c in t.blk && LiveMoved(s, t, b, c)
           && adjust <= 8 * t.blk[c].units < adjust + HEADER_SIZE
           && (c != b ==> GoodFit(s, adjust, c) && t.blk[c].units == Trimmed(s.blk[c].units, adjust / 8))
  {
    hide UnitClass, FirstSufficient, Suits, AdjustRequestSize, TrimUsed, Grow, Free, Malloc;
    var adjust := AdjustRequestSize(size, ALIGN_SIZE);
    AdjustRequest(size);
    assert BlockOk(s, b) && BlockOk(s, Next(s, b));
    if ReallocMoves(s, b, adjust) {
      var (t, p) := Malloc(s, size);
      MallocExact(s, size);
      MallocKeepsInv(s, size);
      MallocKeepsOthers(s, size, b);
      if p != NULL_BLOCK {
        FreeExact(t, b);
        FreeKeepsOthers(t, b, p);
      }
    } else if adjust > 8 * s.blk[b].units {
      GrowInv(s, b);
      GrowLive(s, b);
      TrimUsedExact(Grow(s, b), b, adjust / 8);
    } else {
      TrimUsedExact(s, b, adjust / 8);
    }
  }

  lemma GrowLive(s: State, b: int)
    requires Inv(s) && Live(s, b) && Next(s, b) in s.blk && s.blk[Next(s, b)].free
    ensures SameLive(s, Grow(s, b))
  {
    assert BlockOk(s, b) && BlockOk(s, Next(s, b)) && NotTwoFree(s, Next(s, b));
  }

  lemma TrimUsedExact(s: State, b: int, units: nat)
    requires Inv(s) && Live(s, b) && (3 <= units <= s.blk[b].units || (units == 0 && s.blk[b].units == 3))
    ensures var t := TrimUsed(s, b, units);
      b in t.blk && SameLive(s, t) && t.blk[b].units == Trimmed(s.blk[b].units, units)
  {
    if CanSplit(s.blk[b].units, units) {
      TilingSplit(s, b, units);
      var t, r := Split(s, b, units), Rest(b, units);
      assert BlockOk(t, r) && BlockOk(t, Next(t, r)) && BlockOk(s, b);
    }
  }
}
