/** What the allocator's sequences of stores amount to, as values of memory. */
module Steps {
  import opened Bits
  import opened Bytes
  import opened Mapping
  import opened FreeList
  import opened Blocks
  import opened HeapSpec
  import opened Memory
  import opened Bitmap

  // ---------------------------------------------------------------- lists

  ghost function RemovedHead(m: seq<Word>, heads: seq<int>, b: int, k: nat): seq<int>
    requires k < |heads| && 0 <= b && b + 2 < |m|
  {
    if heads[k] == b then heads[k := m[b + 2]] else heads
  }

  /** What remove_free_block's stores amount to. */
  lemma RemoveStep(m: seq<Word>, heads: seq<int>, flMap: nat, slMap: seq<nat>, s: State, loose: set<int>, b: int,
      fl: nat, sl: nat)
    requires Tiling(s) && Listed(s, loose) && Mirrors(m, heads, s) && Bitmapped(flMap, slMap, s.lists)
    requires b in s.blk && s.blk[b].free && b !in loose
    requires fl < FL_INDEX_COUNT && sl < SL_INDEX_COUNT && UnitClass(s.blk[b].units) == SL_INDEX_COUNT * fl + sl
    ensures Shl32(1, sl) < Pow2(32) && Shl32(1, fl) < Pow2(32)
    ensures 0 <= b && b + 3 < |m| && m[b + 2] + 3 < |m| && m[b + 3] + 2 < |m|
    ensures var k, t := SL_INDEX_COUNT * fl + sl, Unlist(s, b);
      var l := RemoveValue(s.lists[k], b);
      var slMap' := DrainedSl(slMap, fl, sl, l);
      && (l == [] <==> heads[k] == b && m[b + 2] == NULL_BLOCK)
      && Mirrors(Unlink(m, b), RemovedHead(m, heads, b, k), t)
      && Bitmapped(DrainedFl(flMap, slMap', fl, l), slMap', t.lists)
      && Tiling(t) && Listed(t, loose + {b})
      && Kept(m, Unlink(m, b), s, t)
  {
    hide Mirrors, DrainedFl, DrainedSl, Tiling;
    var k := SL_INDEX_COUNT * fl + sl;
    assert OnList(s, b, loose) && ListOk(s, k, loose);
    var i: nat :| i < |s.lists[k]| && s.lists[k][i] == b;
    UnlistMirrors(m, heads, s, loose, b, i);
    UnlistLast(s, loose, k, i, b);
    DrainBits(flMap, slMap, s.lists, fl, sl, RemoveValue(s.lists[k], b));
    OneShifted(sl);
    OneShifted(fl);
    ListedUnlist(s, b, loose);
    TilingUnlist(s, b);
    ListNeighbour(s, loose, k, i + 1);
    ListNeighbour(s, loose, k, i - 1);
    LinkStoresKept(m, Unlink(m, b), heads, s, Unlist(s, b), m[b + 2], m[b + 3]);
  }

  /** What insert_free_block's stores amount to. */
  lemma InsertStep(m: seq<Word>, heads: seq<int>, flMap: nat, slMap: seq<nat>, s: State, loose: set<int>, b: int,
      fl: nat, sl: nat)
    requires Tiling(s) && Listed(s, loose) && Mirrors(m, heads, s) && Bitmapped(flMap, slMap, s.lists)
    requires b in s.blk && b != s.end && s.blk[b].free && b in loose
    requires fl < FL_INDEX_COUNT && sl < SL_INDEX_COUNT && UnitClass(s.blk[b].units) == SL_INDEX_COUNT * fl + sl
    ensures var k, t := SL_INDEX_COUNT * fl + sl, Enlist(s, b);
      && 0 <= b && b + 3 < |m| && 0 <= heads[k] && heads[k] + 3 < |m|
      && Mirrors(LinkFront(m, heads[k], b), heads[k := b], t)
      && Bitmapped(Or(flMap, Shl32(1, fl)), slMap[fl := Or(slMap[fl], Shl32(1, sl))], t.lists)
      && Tiling(t) && Listed(t, loose - {b})
      && Kept(m, LinkFront(m, heads[k], b), s, t)
  {
    var k, t := SL_INDEX_COUNT * fl + sl, Enlist(s, b);
    EnlistMirrors(m, heads, s, loose, b);
    FillBits(flMap, slMap, s.lists, fl, sl, [b] + s.lists[k]);
    ListedEnlist(s, b, loose);
    assert BlockOk(s, s.end);
    TilingSameSizes(s, t);
    ListNeighbour(s, loose, k, 0);
    LinkStoresKept(m, LinkFront(m, heads[k], b), heads, s, t, heads[k], b);
  }

  // ---------------------------------------------------------------- marking

  /** Word of the header that follows block b. */
  function NextWord(m: seq<Word>, b: int): int
    requires 0 <= b && b + 1 < |m|
  {
    b + 1 + SizeOf(m[b + 1]) / 8
  }

  /** The stores of block_mark_as_free, or of block_mark_as_used, on block b followed by n. */
  ghost predicate MarkStored(m: seq<Word>, m': seq<Word>, b: int, n: int, free: bool) {
    && 0 <= b && b + 1 < n && n + 1 < |m|
    && OnlyAt(m, m', if free then {b + 1, n, n + 1} else {b + 1, n + 1})
    && m'[b + 1] == WithFree(m[b + 1], free) && m'[n + 1] == WithPrevFree(m[n + 1], free) && (free ==> m'[n] == b)
  }

  lemma MarkReady(m: seq<Word>, heads: seq<int>, s: State, b: int)
    requires Tiling(s) && Mirrors(m, heads, s) && b in s.blk && b != s.end
    ensures 0 <= b && b + 4 <= Next(s, b) && Next(s, b) in s.blk && Next(s, b) + 1 < |m| && NextWord(m, b) == Next(s, b)
    ensures SizeOf(m[b + 1]) == 8 * s.blk[b].units && 8 * s.blk[b].units < 0x1_0000_0000
  {
    BlockFacts(m, heads, s, b);
  }

  lemma MarkStep(m: seq<Word>, m': seq<Word>, heads: seq<int>, s: State, loose: set<int>, b: int, free: bool)
    requires Tiling(s) && Listed(s, loose) && Mirrors(m, heads, s) && b in s.blk && b != s.end && Next(s, b) in s.blk
    requires (s.blk[b].free ==> b in loose) && MarkStored(m, m', b, Next(s, b), free)
    ensures var t := Mark(s, b, free);
      Mirrors(m', heads, t) && Tiling(t) && Listed(t, if free then loose + {b} else loose - {b}) && Kept(m, m', s, t)
  {
    var n := Next(s, b);
    BlockFacts(m, heads, s, b);
    BlockFacts(m, heads, s, n);
    TagWrites(s.blk[b], 0, free);
    TagWrites(s.blk[n], 0, free);
    TilingMark(s, b, free);
    MarkMirrors(m, m', heads, s, loose, b, free);
    ListedOther(s, Mark(s, b, free), loose, if free then loose + {b} else loose - {b});
    MarkKept(m, m', s, b, free);
  }

  lemma MarkKept(m: seq<Word>, m': seq<Word>, s: State, b: int, free: bool)
    requires Tiling(s) && b in s.blk && b != s.end && Next(s, b) in s.blk && Tiling(Mark(s, b, free))
    requires OnlyAt(m, m', if free then {b + 1, Next(s, b), Next(s, b) + 1} else {b + 1, Next(s, b) + 1})
    ensures Kept(m, m', s, Mark(s, b, free))
  {
    var n, t := Next(s, b), Mark(s, b, free);
    assert BlockOk(s, b);
    NotPayload(s, b, b + 1);
    NotPayload(s, n, n + 1);
    if free { NotPayload(t, b, n); }
  }

  // ---------------------------------------------------------------- splitting

  /** block_set_size writes a word with the given size. */
  lemma SetSizeFits(w: Word, size: nat)
    requires size % 8 == 0 && size < 0x1_0000_0000
    ensures 0 <= WithSize(w, size) < WORD_LIMIT && SizeOf(WithSize(w, size)) == size
  {
    TagFromStale(w, size / 8, true, false);
  }

  /** The stores of block_split: the first block gets its size, the header at r the rest, with
      whatever flags were there but the free one, and the header at n learns of r. */
  ghost predicate SplitStored(m: seq<Word>, m': seq<Word>, b: int, r: int, n: int, size: nat) {
    && 0 <= b < r && r + 1 < n && n + 1 < |m| && size % 8 == 0 && size < 0x1_0000_0000
    && size + 8 <= SizeOf(m[b + 1]) < 0x1_0000_0000
    && OnlyAt(m, m', {b + 1, r + 1, n, n + 1})
    && m'[b + 1] == WithSize(m[b + 1], size) && m'[n + 1] == WithPrevFree(m[n + 1], true) && m'[n] == r
    && var remain := SizeOf(m[b + 1]) - (size + 8);
    0 <= WithSize(m[r + 1], remain) < WORD_LIMIT && m'[r + 1] == WithFree(WithSize(m[r + 1], remain), true)
  }

  /** The sizes stored first: the rest at r, then the first block's own. */
  ghost predicate SizesStored(m: seq<Word>, m1: seq<Word>, b: int, r: int, size: nat) {
    && 0 <= b < r && r + 1 < |m| && size + 16 <= SizeOf(m[b + 1])
    && var remain := SizeOf(m[b + 1]) - (size + 8);
    && 0 <= WithSize(m[r + 1], remain) < WORD_LIMIT && 0 <= WithSize(m[b + 1], size) < WORD_LIMIT
    && m1 == m[r + 1 := WithSize(m[r + 1], remain)][b + 1 := WithSize(m[b + 1], size)]
    && SizeOf(m1[r + 1]) == remain
  }

  /** The second header lies before the block that follows. */
  lemma SplitWords(m: seq<Word>, b: int, r: int, size: nat)
    requires 0 <= b && b + 1 < |m| && size % 8 == 0 && SizeOf(m[b + 1]) % 8 == 0 && size + 16 <= SizeOf(m[b + 1])
    requires r == b + 1 + size / 8
    ensures b < r && r + 1 < NextWord(m, b)
  {
    hide SizeOf;
  }

  /** Both headers lead to the same following block. */
  lemma SplitNext(m: seq<Word>, m1: seq<Word>, b: int, r: int, size: nat)
    requires 0 <= b && b + 1 < |m| && size % 8 == 0 && SizeOf(m[b + 1]) % 8 == 0 && SizesStored(m, m1, b, r, size)
    requires r == b + 1 + size / 8
    ensures |m1| == |m| && NextWord(m1, r) == NextWord(m, b)
  {
    hide SizeOf, WithSize;
  }

  /** The two sizes stored and the second block marked free. */
  lemma SplitStores(m: seq<Word>, m1: seq<Word>, m': seq<Word>, b: int, r: int, n: int, size: nat)
    requires size % 8 == 0 && size < 0x1_0000_0000 && 0 <= b && b + 1 < |m| && SizeOf(m[b + 1]) < 0x1_0000_0000
    requires SizesStored(m, m1, b, r, size) && MarkStored(m1, m', r, n, true)
    ensures SplitStored(m, m', b, r, n, size)
  {
    hide SizeOf, WithSize, WithFree, WithPrevFree;
  }

  /** ... and the repairs its callers make to the header at r: its prev-free flag, and when the
      first block is free its link to it. */
  ghost predicate SplitRepaired(m: seq<Word>, m': seq<Word>, b: int, r: int, n: int, size: nat, free: bool) {
    && 0 <= b < r && r + 1 < n && n + 1 < |m| && size % 8 == 0 && size < 0x1_0000_0000
    && size + 8 <= SizeOf(m[b + 1]) < 0x1_0000_0000
    && OnlyAt(m, m', if free then {b + 1, r, r + 1, n, n + 1} else {b + 1, r + 1, n, n + 1})
    && m'[b + 1] == WithSize(m[b + 1], size) && m'[n + 1] == WithPrevFree(m[n + 1], true) && m'[n] == r
    && m'[r + 1] == Tag(Blk((SizeOf(m[b + 1]) - (size + 8)) / 8, true, free)) && (free ==> m'[r] == b)
  }

  lemma SplitRepair(m: seq<Word>, m1: seq<Word>, m': seq<Word>, b: int, r: int, n: int, size: nat, free: bool)
    requires SplitStored(m, m1, b, r, n, size) && (free ==> b + 1 < r) && SizeOf(m[b + 1]) % 8 == 0
    requires m' == (if free then m1[r := b] else m1)[r + 1 := WithPrevFree(m1[r + 1], free)]
    ensures SplitRepaired(m, m', b, r, n, size, free)
  {
    hide SizeOf, WithSize, WithFree, WithPrevFree, Tag;
    TagFromStale(m[r + 1], (SizeOf(m[b + 1]) - (size + 8)) / 8, true, free);
  }

  lemma SplitStep(m: seq<Word>, m': seq<Word>, heads: seq<int>, s: State, loose: set<int>, b: int, units: nat)
    requires Tiling(s) && Listed(s, loose) && Mirrors(m, heads, s) && b in s.blk && b != s.end
    requires (s.blk[b].free ==> b in loose) && 3 <= units && units + 4 <= s.blk[b].units
    requires SplitRepaired(m, m', b, Rest(b, units), Next(s, b), 8 * units, s.blk[b].free)
    ensures Next(s, b) in s.blk && Rest(b, units) !in s.blk
    ensures var t := Split(s, b, units);
      Mirrors(m', heads, t) && Tiling(t) && Listed(t, loose + {Rest(b, units)}) && Kept(m, m', s, t)
  {
    var n, r := Next(s, b), Rest(b, units);
    TilingSplit(s, b, units);
    BlockFacts(m, heads, s, b);
    BlockFacts(m, heads, s, n);
    TagWrites(s.blk[b], units, true);
    TagWrites(s.blk[n], units, true);
    SplitMirrors(m, m', heads, s, loose, b, units);
    ListedOther(s, Split(s, b, units), loose, loose + {r});
    SplitKept(m, m', s, b, units);
  }

  lemma SplitKept(m: seq<Word>, m': seq<Word>, s: State, b: int, units: nat)
    requires Tiling(s) && b in s.blk && b != s.end && 3 <= units && units + 4 <= s.blk[b].units
    requires Next(s, b) in s.blk && Tiling(Split(s, b, units))
    requires var n, r := Next(s, b), Rest(b, units);
      OnlyAt(m, m', if s.blk[b].free then {b + 1, r, r + 1, n, n + 1} else {b + 1, r + 1, n, n + 1})
    ensures Kept(m, m', s, Split(s, b, units))
  {
    var n, r, t := Next(s, b), Rest(b, units), Split(s, b, units);
    assert BlockOk(s, b);
    NotPayload(s, b, b + 1);
    NotPayload(s, n, n + 1);
    NotPayload(t, r, r + 1);
    NotPayload(t, r, n);
    if s.blk[b].free { NotPayload(t, b, r); }
  }

  // ---------------------------------------------------------------- joining

  /** The stores of block_absorb, when e is the header after the absorbed block at n. */
  ghost predicate AbsorbStored(m: seq<Word>, m': seq<Word>, b: int, n: int, e: int) {
    && 0 <= b && b + 1 < |m| && 0 <= n && n + 1 < |m| && b + 1 < e < |m|
    && OnlyAt(m, m', {b + 1, e}) && m'[b + 1] == m[b + 1] + SizeOf(m[n + 1]) + 8 && m'[e] == b
  }

  lemma AbsorbReady(m: seq<Word>, heads: seq<int>, s: State, b: int)
    requires Tiling(s) && Mirrors(m, heads, s) && b in s.blk && b != s.end
    requires Next(s, b) in s.blk && Next(s, b) != s.end
    ensures var n := Next(s, b);
      && 0 <= b && b + 1 < |m| && 0 <= n && n + 1 < |m| && Next(s, n) in s.blk && b + 1 < Next(s, n) < |m|
      && m[b + 1] + SizeOf(m[n + 1]) + 8 < WORD_LIMIT
      && b + 1 + SizeOf(m[b + 1] + SizeOf(m[n + 1]) + 8) / 8 == Next(s, n)
    ensures m[b + 1] + SizeOf(m[Next(s, b) + 1]) + 8 == Tag(Absorb(s, b).blk[b])
  {
    var n, t := Next(s, b), Absorb(s, b);
    BlockFacts(m, heads, s, b);
    BlockFacts(m, heads, s, n);
    TilingAbsorb(s, b);
    assert BlockOk(t, b);
    TagReads(t.blk[b]);
  }

  lemma AbsorbStep(m: seq<Word>, m': seq<Word>, heads: seq<int>, s: State, loose: set<int>, b: int)
    requires Tiling(s) && Listed(s, loose) && Mirrors(m, heads, s) && b in s.blk && b != s.end
    requires Next(s, b) in s.blk && Next(s, b) != s.end && s.blk[Next(s, b)].free && Next(s, b) in loose
    requires (s.blk[b].free ==> b in loose) && AbsorbStored(m, m', b, Next(s, b), Next(s, Next(s, b)))
    ensures var t := Absorb(s, b);
      Mirrors(m', heads, t) && Tiling(t) && Listed(t, loose - {Next(s, b)}) && Kept(m, m', s, t)
  {
    var n, t := Next(s, b), Absorb(s, b);
    AbsorbReady(m, heads, s, b);
    TilingAbsorb(s, b);
    AbsorbMirrors(m, m', heads, s, loose, b);
    ListedOther(s, t, loose, loose - {n});
    assert BlockOk(s, b) && BlockOk(s, n) && BlockOk(s, Next(s, n));
    NotPayload(s, b, b + 1);
    NotPayload(s, n, Next(s, n));
  }

  /** The prev-free flag of a loose block is set exactly when the word before its header
      links to a free physical predecessor. */
  lemma MergePrevStep(m: seq<Word>, heads: seq<int>, s: State, b: int)
    requires Mid(s, {b}) && Mirrors(m, heads, s) && b in s.blk && b != s.end && s.blk[b].free
    ensures 0 <= b && b + 1 < |m|
    ensures s.blk[b].prevFree <==> b != FIRST && s.blk[Prev(s, b)].free
    ensures s.blk[b].prevFree ==> m[b] == Prev(s, b) && Prev(s, b) in s.blk && Prev(s, b) < b
    ensures var (t, c) := MergePrev(s, b); Mid(t, {c}) && c in t.blk && c != t.end && t.blk[c].free
  {
    BlockFacts(m, heads, s, b);
    if b != FIRST { assert FlagOk(s, Prev(s, b)); }
    if s.blk[b].prevFree {
      var p := Prev(s, b);
      assert BlockOk(s, p);
      BlockFacts(m, heads, s, p);
      MidUnlist(s, p, {b});
      MidAbsorb(Unlist(s, p), p, {b} + {p});
      assert {b} + {p} - {b} == {p};
    }
  }

  // ---------------------------------------------------------------- payloads across steps

  lemma TrimFreePayloads(s: State, b: int, units: nat)
    requires Tiling(s) && b in s.blk && b != s.end && s.blk[b].free && units >= 3
    ensures Next(s, b) in s.blk && PayloadsWithin(s, TrimFree(s, b, units))
  {
    assert BlockOk(s, b);
    if CanSplit(s.blk[b].units, units) { TilingSplit(s, b, units); }
  }

  lemma MergeNextPayloads(s: State, b: int)
    requires Tiling(s) && b in s.blk && b != s.end && s.blk[b].free && Next(s, b) in s.blk
    ensures PayloadsWithin(MergeNext(s, b), s)
  {
  }

  lemma MergePrevPayloads(s: State, b: int)
    requires Mid(s, {b}) && b in s.blk && b != s.end && s.blk[b].free
    ensures PayloadsWithin(MergePrev(s, b).0, s)
  {
    if b != FIRST && s.blk[b].prevFree {
      var p := Prev(s, b);
      assert FlagOk(s, p) && BlockOk(s, p);
    }
  }

  lemma LeadingPayloads(s: State, b: int, gap: nat)
    requires Tiling(s) && b in s.blk && b != s.end && s.blk[b].free && (gap == 0 || gap >= 4)
    ensures Next(s, b) in s.blk && PayloadsWithin(s, TrimLeading(s, b, gap).0)
  {
    assert BlockOk(s, b);
    if gap > 0 && CanSplit(s.blk[b].units, gap) { TilingSplit(s, b, gap - 1); }
  }

  lemma AlignedSizeFits(align: nat, size: nat)
    requires size < WORD_LIMIT && PowerOfTwo(align)
    ensures align > 0 && MemalignSize(align, size) < BLOCK_SIZE_MAX
  {
    PowerOfTwoCases(align);
    AdjustRequest(size);
    if align > ALIGN_SIZE && AdjustRequestSize(size, ALIGN_SIZE) != 0 { MemalignSizeExact(align, size); }
  }

  // ---------------------------------------------------------------- payload bytes

  function Least(x: int, y: int): int { if x < y then x else y }

  /** Byte i of the storage that starts at word w. */
  ghost function ByteAt(m: seq<Word>, w: int, i: nat): nat {
    if 0 <= w + i / 8 < |m| then Byte(m[w + i / 8], i % 8) else 0
  }

  ghost function PayloadByte(m: seq<Word>, b: int, i: nat): nat {
    ByteAt(m, b + 2, i)
  }

  /** The first n bytes of the payload of b in m are those of the payload of c in m'. */
  ghost predicate SameBytes(m: seq<Word>, b: int, m': seq<Word>, c: int, n: int) {
    forall i: nat {:trigger PayloadByte(m', c, i)} {:trigger PayloadByte(m, b, i)} ::
      i < n ==> PayloadByte(m', c, i) == PayloadByte(m, b, i)
  }

  /** The bytes common to a live block's old and new payload are kept. */
  lemma KeptBytes(m: seq<Word>, m': seq<Word>, s: State, t: State, b: int)
    requires Kept(m, m', s, t) && Live(s, b) && Live(t, b)
    ensures SameBytes(m, b, m', b, Least(8 * s.blk[b].units, 8 * t.blk[b].units))
  {
    forall i: nat | i < Least(8 * s.blk[b].units, 8 * t.blk[b].units)
      ensures PayloadByte(m', b, i) == PayloadByte(m, b, i) {
      assert InPayload(s, b, b + 2 + i / 8);
    }
  }

  lemma SameBytesTwice(m0: seq<Word>, m1: seq<Word>, m2: seq<Word>, a: int, b: int, c: int, k: int, l: int, n: int)
    requires SameBytes(m0, a, m1, b, k) && SameBytes(m1, b, m2, c, l) && n <= k && n <= l
    ensures SameBytes(m0, a, m2, c, n)
  {
  }

  lemma MallocPayloads(s: State, size: nat)
    requires Inv(s) && size < WORD_LIMIT
    ensures PayloadsWithin(s, Malloc(s, size).0)
  {
    MallocKeepsInv(s, size);
    forall b, w | InPayload(s, b, w) ensures InPayload(Malloc(s, size).0, b, w) {
      MallocKeepsOthers(s, size, b);
    }
  }

  /** Malloc's block has room for a moved payload, apart from the one it is moved from. */
  lemma MoveRoom(m: seq<Word>, heads: seq<int>, s: State, size: nat, b: int, n: nat)
    requires Inv(s) && Live(s, b) && size <= MAX_UNWRAPPED && n <= 8 * s.blk[b].units && n <= size
    requires Malloc(s, size).1 != NULL_BLOCK && Mirrors(m, heads, Malloc(s, size).0)
    ensures var (t, c) := Malloc(s, size);
      && Inv(t) && Live(t, b) && Live(t, c) && !Live(s, c) && t.blk[b].units == s.blk[b].units
      && n <= 8 * t.blk[c].units && 0 <= b && 0 <= c
      && b + 2 + (n + 7) / 8 <= |m| && c + 2 + (n + 7) / 8 <= |m|
      && b + 2 + (n + 7) / 8 <= Next(t, b) + 1 && c + 2 + (n + 7) / 8 <= Next(t, c) + 1
      && (b + 2 + (n + 7) / 8 <= c + 2 || c + 2 + (n + 7) / 8 <= b + 2)
  {
    MallocKeepsInv(s, size);
    MallocKeepsOthers(s, size, b);
    AdjustRequest(size);
    var (t, c) := Malloc(s, size);
    LocateFound(s, AdjustRequestSize(size, ALIGN_SIZE));
    BlockFacts(m, heads, t, b);
    BlockFacts(m, heads, t, c);
    Disjoint(t, b, c);
  }

  /** After the copy the heap is still represented, other payloads are as they were, and the
      new payload begins with the bytes of the old one. */
  lemma CopiedIn(m: seq<Word>, m1: seq<Word>, m2: seq<Word>, heads: seq<int>, s: State, t: State, b: int, c: int,
      n: nat)
    requires Kept(m, m1, s, t) && Mirrors(m1, heads, t) && Tiling(t) && Listed(t, {}) && |m1| == |m| == |m2|
    requires Live(s, b) && Live(t, b) && Live(t, c) && !Live(s, c) && t.blk[b].units == s.blk[b].units
      && n <= 8 * s.blk[b].units
    requires 0 <= b && 0 <= c && c + 2 + (n + 7) / 8 <= Next(t, c) + 1 && c + 2 + (n + 7) / 8 <= |m|
    requires forall w {:trigger m2[w]} :: 0 <= w < |m2| && !(c + 2 <= w < c + 2 + (n + 7) / 8) ==> m2[w] == m1[w]
    requires b + 2 + (n + 7) / 8 <= |m|
    requires SameBytes(m1, b, m2, c, n)
    ensures Mirrors(m2, heads, t) && Kept(m, m2, s, t) && SameBytes(m, b, m2, c, n)
  {
    ClientStoreMirrors(m1, m2, heads, t, {}, c);
    assert BlockOk(t, c);
    forall x, w | InPayload(s, x, w) && InPayload(t, x, w) && 0 <= w < |m| ensures m2[w] == m[w] {
      assert BlockOk(t, x);
      Disjoint(t, x, c);
    }
    KeptBytes(m, m1, s, t, b);
    SameBytesTwice(m, m1, m2, b, b, c, 8 * s.blk[b].units, n, n);
  }

  // ---------------------------------------------------------------- results of realloc

  /** The outcome of resizing block b: the abstract heap and the pointer are those of the
      specification, and a non-null pointer is to a live block that begins with the bytes of b. */
  ghost predicate Reallocated(m: seq<Word>, m': seq<Word>, s: State, t: State, b: int, size: nat, base: nat, q: int) {
    && Inv(s) && Live(s, b) && 0 < size < WORD_LIMIT && !Spoils(s, b, size)
    && var (u, c) := Realloc(s, b, size);
    && t == u && q == (if c == NULL_BLOCK then 0 else PayloadAddress(base, c))
    && (c != NULL_BLOCK ==>
          && Live(t, c) && 8 * t.blk[c].units >= AdjustRequestSize(size, ALIGN_SIZE)
          && SameBytes(m, b, m', c, Least(8 * s.blk[b].units, Least(size, 8 * t.blk[c].units))))
  }

  /** The outcome of moving block b. */
  ghost predicate Moved(m: seq<Word>, m': seq<Word>, s: State, t: State, b: int, size: nat, base: nat, q: int) {
    && Inv(s) && Live(s, b) && size < WORD_LIMIT
    && var (u, c) := Malloc(s, size);
    if c == NULL_BLOCK then q == 0 && t == s
    else (Inv(u) && Live(u, b) && t == Free(u, b) && q == PayloadAddress(base, c) && Live(t, c)
          && SameBytes(m, b, m', c, Least(8 * s.blk[b].units, size)))
  }

  lemma MovedIsReallocated(m: seq<Word>, m': seq<Word>, s: State, t: State, b: int, size: nat, base: nat, q: int)
    requires Moved(m, m', s, t, b, size, base, q) && AdjustRequestSize(size, ALIGN_SIZE) != 0
    requires Next(s, b) in s.blk && ReallocMoves(s, b, AdjustRequestSize(size, ALIGN_SIZE))
    ensures Reallocated(m, m', s, t, b, size, base, q)
  {
    ReallocKeepsInv(s, b, size);
    var (u, c) := Malloc(s, size);
    if c != NULL_BLOCK {
      SameBytesTwice(m, m', m', b, c, c, Least(8 * s.blk[b].units, size), Least(8 * s.blk[b].units, size),
        Least(8 * s.blk[b].units, Least(size, 8 * t.blk[c].units)));
    }
  }

  lemma KeptIsReallocated(m: seq<Word>, m': seq<Word>, s: State, t: State, b: int, size: nat, base: nat)
    requires Inv(s) && Live(s, b) && Live(t, b) && size < WORD_LIMIT
      && size > 0
    requires var adjust := AdjustRequestSize(size, ALIGN_SIZE);
      adjust >= BLOCK_SIZE_MIN || (adjust == 0 && s.blk[b].units == 3)
    requires Next(s, b) in s.blk && !ReallocMoves(s, b, AdjustRequestSize(size, ALIGN_SIZE))
    requires t == ResizeInPlace(s, b, AdjustRequestSize(size, ALIGN_SIZE))
    requires SameBytes(m, b, m', b, Least(8 * s.blk[b].units, 8 * t.blk[b].units))
    ensures Reallocated(m, m', s, t, b, size, base, PayloadAddress(base, b))
  {
    ReallocKeepsInv(s, b, size);
    assert BlockOk(s, b);
  }

  // ---------------------------------------------------------------- searching

  lemma SearchStarts(size: nat, fl: nat, sl: nat)
    requires size % 8 == 0 && MappingSearch(size) == (fl, sl)
    ensures sl < SL_INDEX_COUNT && SL_INDEX_COUNT * fl + sl == FirstSufficient(size)
  {
    SearchClassIsScan(size);
  }

  lemma LocateIs(s: State, size: nat)
    requires |s.lists| == CLASS_COUNT
    ensures var k := FirstSufficient(size);
      Locate(s, size) ==
        if size != 0 && k < CLASS_COUNT && FirstNonEmpty(s.lists, k) < CLASS_COUNT
        then s.lists[FirstNonEmpty(s.lists, k)][0] else NULL_BLOCK
  {
  }
}
