/** What becomes of memory when realloc trims a live block to size 0, as it does for sizes that
    malloc refuses: the block's header reads 0, its first payload word is the header of a free block
    that starts inside it, and no heap is represented any more. */
module Refused {
  import opened Bits
  import opened Mapping
  import opened FreeList
  import opened Blocks
  import opened HeapSpec
  import opened Memory
  import opened Steps

  /** Memory and list heads represent some heap, whatever its blocks and lists. */
  ghost predicate Represented(m: seq<Word>, heads: seq<int>) {
    exists t {:trigger Mirrors(m, heads, t)} :: Mirrors(m, heads, t) && Tiling(t) && Listed(t, {})
  }

  ghost predicate HeaderKept(m: seq<Word>, m': seq<Word>, x: int) {
    0 <= x && x + 1 < |m| && x + 1 < |m'| && m'[x + 1] == m[x + 1]
  }

  ghost predicate HeadersKept(m: seq<Word>, m': seq<Word>, s: State, b: int) {
    forall x {:trigger HeaderKept(m, m', x)} :: x in s.blk && x < b ==> HeaderKept(m, m', x)
  }

  /** The payloads of all live blocks but b are unchanged, and so is what is not the pool's. */
  ghost predicate OthersKept(m: seq<Word>, m': seq<Word>, s: State, b: int) {
    && Untouched(m, m', s.end)
    && forall x, w {:trigger InPayload(s, x, w)} :: x != b && 0 <= w < |m| && InPayload(s, x, w) ==> m'[w] == m[w]
  }

  ghost predicate HeadsLeadTo(heads: seq<int>, b: int) {
    |heads| == CLASS_COUNT && exists k :: 0 <= k < |heads| && heads[k] == b
  }

  /** The outcome of trimming block b to 0: its header reads 0, a list leads to a header one word into
      it, and memory represents no heap; only the other payloads are as they were. */
  ghost predicate Spoiled(m: seq<Word>, m': seq<Word>, heads': seq<int>, s: State, b: int) {
    && |m'| == |m| && 0 <= b && b + 1 < |m'| && SizeOf(m'[b + 1]) == 0
    && HeadsLeadTo(heads', b + 1) && InPayload(s, b, b + 2)
    && !Represented(m', heads') && OthersKept(m, m', s, b)
  }

  lemma SpoiledNotReady(m: seq<Word>, m': seq<Word>, heads': seq<int>, s: State, b: int)
    ensures Spoiled(m, m', heads', s, b) ==> !(Mirrors(m', heads', s) && Tiling(s) && Listed(s, {}))
  {
  }

  /** A block too small to split stays as it is. */
  lemma TrimUsedStays(s: State, b: int, units: nat)
    requires Tiling(s) && Live(s, b)
    ensures s.blk[b].units >= 3 && (!CanSplit(s.blk[b].units, units) ==> TrimUsed(s, b, units) == s)
  {
    assert BlockOk(s, b);
  }

  /** A heap that has the same headers below b has the same blocks up to b. */
  lemma {:induction false} SameWalk(m: seq<Word>, m': seq<Word>, heads: seq<int>, heads': seq<int>, s: State, t: State,
      b: int, x: int)
    requires Tiling(s) && Mirrors(m, heads, s) && b in s.blk && HeadersKept(m, m', s, b)
    requires Tiling(t) && Mirrors(m', heads', t) && t.blk != map[]
    requires x in s.blk && x <= b
    ensures x in t.blk
    decreases x
  {
    assert BlockOk(s, x);
    if x > FIRST {
      var p := Predecessor(s, x);
      BlockFacts(m, heads, s, p);
      SameWalk(m, m', heads, heads', s, t, b, p);
      assert HeaderKept(m, m', p);
      BlockFacts(m', heads', t, p);
      assert BlockOk(t, p);
    }
  }

  /** With a header of size 0 at b and a list that leads beyond it, there is no heap. */
  lemma NothingRepresented(m: seq<Word>, m': seq<Word>, heads: seq<int>, heads': seq<int>, s: State, b: int)
    requires Tiling(s) && Mirrors(m, heads, s) && b in s.blk && HeadersKept(m, m', s, b)
    requires 0 <= b && b + 1 < |m'| && SizeOf(m'[b + 1]) == 0 && HeadsLeadTo(heads', b + 1)
    ensures !Represented(m', heads')
  {
    assert BlockOk(s, b);
    forall t | Mirrors(m', heads', t) && Tiling(t) && Listed(t, {}) ensures false {
      var k :| 0 <= k < |heads'| && heads'[k] == b + 1;
      assert Threaded(m', heads', t.lists, k) && ListOk(t, k, {});
      assert b + 1 in t.lists[k];
      assert MemberOk(t, k, b + 1, {});
      assert BlockOk(t, b + 1);
      SameWalk(m, m', heads, heads', s, t, b, b);
      BlockFacts(m', heads', t, b);
    }
  }

  /** Words of blocks other than b that the stores of the trim leave alone. */
  lemma TrimFrame(m: seq<Word>, m': seq<Word>, heads: seq<int>, s: State, b: int, y: int, z: int, h: int, e: int)
    requires Tiling(s) && Mirrors(m, heads, s) && Live(s, b) && s.blk[b].units >= 4 && Next(s, b) in s.blk
    requires NullOrFree(s, y) && NullOrFree(s, z) && NullOrFree(s, h)
    requires e == Next(s, b) || (Next(s, b) != s.end && s.blk[Next(s, b)].free && e == Next(s, Next(s, b)))
    requires OnlyAt(m, m', TrimWords(s, b, y, z, h, e))
    ensures HeadersKept(m, m', s, b) && OthersKept(m, m', s, b)
  {
    var n := Next(s, b);
    BlockFacts(m, heads, s, b);
    BlockFacts(m, heads, s, n);
    LinksInside(s, y);
    LinksInside(s, z);
    LinksInside(s, h);
    forall x | x in s.blk && x < b ensures HeaderKept(m, m', x) {
      BlockFacts(m, heads, s, x);
      HeaderApart(s, y, x);
      HeaderApart(s, z, x);
      HeaderApart(s, h, x);
      BlockFacts(m, heads, s, n);
    }
    forall x, w | x != b && 0 <= w < |m| && InPayload(s, x, w) ensures m'[w] == m[w] {
      FreeWords(s, y, x, w);
      FreeWords(s, z, x, w);
      FreeWords(s, h, x, w);
      Disjoint(s, x, b);
      NotPayload(s, b, b + 1);
      NotPayload(s, n, n + 1);
      if e != n { NotPayload(s, n, e); }
    }
  }

  /** The words written when block b is trimmed to 0: headers, the links of the new free block, the
      links of list neighbours, and the link to the new block after it. */
  ghost function TrimWords(s: State, b: int, y: int, z: int, h: int, e: int): set<int>
    requires b in s.blk
  {
    {b + 1, b + 2, b + 3, b + 4, Next(s, b), Next(s, b) + 1, y + 3, z + 2, h + 3, e}
  }

  /** After the split and the cleared flag: b reads 0, and a free block of the rest starts a word later. */
  ghost predicate SplitToZero(m: seq<Word>, m': seq<Word>, s: State, b: int)
    requires b in s.blk
  {
    var n := Next(s, b);
    && 0 <= b && b + 4 < n && n in s.blk && n + 1 < |m|
    && OnlyAt(m, m', {b + 1, b + 2, n, n + 1}) && SizeOf(m'[b + 1]) == 0
    && m'[b + 2] == Tag(Blk(s.blk[b].units - 1, true, false)) && m'[n + 1] == Tag(s.blk[n].(prevFree := true))
  }

  lemma SplitToZeroOf(m: seq<Word>, m1: seq<Word>, m': seq<Word>, heads: seq<int>, s: State, b: int)
    requires Tiling(s) && Mirrors(m, heads, s) && Live(s, b) && s.blk[b].units >= 4 && Next(s, b) in s.blk
    requires SplitStored(m, m1, b, b + 1, Next(s, b), 0) && m' == m1[b + 2 := WithPrevFree(m1[b + 2], false)]
    ensures SplitToZero(m, m', s, b)
  {
    var n := Next(s, b);
    BlockFacts(m, heads, s, b);
    BlockFacts(m, heads, s, n);
    SplitRepair(m, m1, m', b, b + 1, n, 0, false);
    SetSizeFits(m[b + 1], 0);
    TagWrites(s.blk[n], 0, true);
  }

  /** After the rest has been joined with a free successor, or not. */
  ghost predicate JoinedAfterZero(m: seq<Word>, m': seq<Word>, heads': seq<int>, s: State, b: int, units: nat,
      y: int, z: int, e: int)
    requires b in s.blk
  {
    var n := Next(s, b);
    && 0 <= b && b + 4 < n && n in s.blk && n + 1 < |m| && 3 <= units < UNITS_MAX
    && (e == n || (n != s.end && s.blk[n].free && e == Next(s, n)))
    && NullOrFree(s, y) && NullOrFree(s, z) && OnlyAt(m, m', {b + 1, b + 2, n, n + 1, y + 3, z + 2, e})
    && SizeOf(m'[b + 1]) == 0 && m'[b + 2] == Tag(Blk(units, true, false))
    && |heads'| == CLASS_COUNT && forall k {:trigger heads'[k]} :: 0 <= k < CLASS_COUNT ==> NullOrFree(s, heads'[k])
  }

  lemma HeadsOfFree(m: seq<Word>, heads: seq<int>, s: State, loose: set<int>)
    requires Tiling(s) && Listed(s, loose) && Mirrors(m, heads, s)
    ensures forall k {:trigger heads[k]} :: 0 <= k < CLASS_COUNT ==> NullOrFree(s, heads[k])
  {
    forall k | 0 <= k < CLASS_COUNT ensures NullOrFree(s, heads[k]) {
      assert Threaded(m, heads, s.lists, k);
      ListNeighbour(s, loose, k, 0);
    }
  }

  /** The rest is followed by the block that followed b, whose free flag is as it was. */
  lemma NextAfterZero(m: seq<Word>, m1: seq<Word>, heads: seq<int>, s: State, b: int)
    requires Tiling(s) && Mirrors(m, heads, s) && Live(s, b) && s.blk[b].units >= 4 && SplitToZero(m, m1, s, b)
    ensures var n := Next(s, b);
      && 0 <= b < n && n in s.blk && |m1| == |m| && n + 1 < |m1|
      && b + 2 + SizeOf(m1[b + 2]) / 8 == n && FreeBit(m1[n + 1]) == s.blk[n].free
      && SizeOf(m1[n + 1]) == 8 * s.blk[n].units && (n == s.end ==> !s.blk[n].free)
      && 8 * s.blk[n].units < BLOCK_SIZE_MAX && |m1| < WORD_LIMIT
  {
    var n := Next(s, b);
    BlockFacts(m, heads, s, b);
    BlockFacts(m, heads, s, n);
    ClassFits(s, n);
    assert BlockOk(s, n);
    TagReads(Blk(s.blk[b].units - 1, true, false));
    TagReads(s.blk[n].(prevFree := true));
  }

  lemma NotJoined(m: seq<Word>, m1: seq<Word>, heads: seq<int>, s: State, b: int)
    requires Tiling(s) && Listed(s, {}) && Mirrors(m, heads, s) && Live(s, b) && s.blk[b].units >= 4
    requires SplitToZero(m, m1, s, b)
    ensures JoinedAfterZero(m, m1, heads, s, b, s.blk[b].units - 1, NULL_BLOCK, NULL_BLOCK, Next(s, b))
  {
    HeadsOfFree(m, heads, s, {});
    ClassFits(s, b);
    BlockFacts(m, heads, s, b);
  }

  /** The links of a listed block lead to free blocks or the null block. */
  lemma LinksFree(m: seq<Word>, heads: seq<int>, s: State, n: int)
    requires Tiling(s) && Listed(s, {}) && Mirrors(m, heads, s) && n in s.blk && s.blk[n].free
    ensures 0 <= n && n + 3 < |m| && NullOrFree(s, m[n + 2]) && NullOrFree(s, m[n + 3])
  {
    assert OnList(s, n, {});
    var k := UnitClass(s.blk[n].units);
    assert ListOk(s, k, {}) && Threaded(m, heads, s.lists, k);
    var i: nat :| i < |s.lists[k]| && s.lists[k][i] == n;
    assert Node(m, s.lists[k], i);
    ListNeighbour(s, {}, k, i + 1);
    ListNeighbour(s, {}, k, i - 1);
  }

  /** Taking the free successor off its list leaves both headers inside b as they were. */
  lemma UnlinkedAfterZero(m: seq<Word>, m1: seq<Word>, heads: seq<int>, s: State, b: int)
    requires Tiling(s) && Listed(s, {}) && Mirrors(m, heads, s) && Live(s, b) && s.blk[b].units >= 4
    requires SplitToZero(m, m1, s, b) && s.blk[Next(s, b)].free
    ensures var n := Next(s, b);
      && n + 3 < |m| && m1[n + 2] == m[n + 2] && m1[n + 3] == m[n + 3] && m[n + 2] + 3 < |m| && m[n + 3] + 2 < |m|
      && NullOrFree(s, m[n + 2]) && NullOrFree(s, m[n + 3])
      && var m' := Unlink(m1, n);
      && OnlyAt(m, m', {b + 1, b + 2, n, n + 1, m[n + 2] + 3, m[n + 3] + 2})
      && m'[b + 1] == m1[b + 1] && m'[b + 2] == m1[b + 2] && m'[n + 1] == m1[n + 1]
  {
    hide Mirrors, Tagged, Listed, Tag, SizeOf, NullOrFree;
    var n := Next(s, b);
    LinksFree(m, heads, s, n);
    var y, z := m[n + 2], m[n + 3];
    BlockFacts(m, heads, s, n);
    if y in s.blk { BlockFacts(m, heads, s, y); }
    if z in s.blk { BlockFacts(m, heads, s, z); }
    HeaderApart(s, y, b);
    HeaderApart(s, z, b);
    HeaderApart(s, y, n);
    HeaderApart(s, z, n);
    FreeWords(s, y, b, b + 2);
    FreeWords(s, z, b, b + 2);
  }

  /** The absorption adds up, and leads to the block after the successor. */
  lemma AbsorbAfterZeroReady(m: seq<Word>, m1: seq<Word>, heads: seq<int>, s: State, b: int)
    requires Tiling(s) && Mirrors(m, heads, s) && Live(s, b) && s.blk[b].units >= 4
    requires Next(s, b) in s.blk && Next(s, b) != s.end && 0 <= b && Next(s, b) + 1 < |m1| && |m1| == |m|
    requires m1[b + 2] == Tag(Blk(s.blk[b].units - 1, true, false))
    requires m1[Next(s, b) + 1] == Tag(s.blk[Next(s, b)].(prevFree := true))
    ensures var n := Next(s, b);
      var units := s.blk[b].units + s.blk[n].units;
      && SizeOf(m1[n + 1]) == 8 * s.blk[n].units && 3 <= units < UNITS_MAX
      && m1[b + 2] + SizeOf(m1[n + 1]) + 8 == Tag(Blk(units, true, false)) < WORD_LIMIT
      && SizeOf(Tag(Blk(units, true, false))) == 8 * units && Next(s, n) == b + 2 + units < |m1|
  {
    var n := Next(s, b);
    BlockFacts(m, heads, s, b);
    BlockFacts(m, heads, s, n);
    TagReads(s.blk[n].(prevFree := true));
    TagReads(Blk(s.blk[b].units + s.blk[n].units, true, false));
  }

  /** The list of the free successor becomes empty as the links say. */
  lemma ListEmptied(m: seq<Word>, heads: seq<int>, s: State, n: int, k: nat)
    requires Tiling(s) && Listed(s, {}) && Mirrors(m, heads, s) && n in s.blk && s.blk[n].free
    requires k < CLASS_COUNT && k == UnitClass(s.blk[n].units)
    ensures |s.lists| == |heads| == CLASS_COUNT && 0 <= n && n + 2 < |m|
    ensures RemoveValue(s.lists[k], n) == [] <==> heads[k] == n && m[n + 2] == NULL_BLOCK
  {
    assert OnList(s, n, {}) && ListOk(s, k, {}) && Threaded(m, heads, s.lists, k);
    var i: nat :| i < |s.lists[k]| && s.lists[k][i] == n;
    assert Node(m, s.lists[k], i);
    UnlistLast(s, {}, k, i, n);
    UnlinkRemoves(m, heads[k], s.lists[k], i);
  }

  lemma SuccessorReady(m: seq<Word>, m1: seq<Word>, m2: seq<Word>, heads: seq<int>, s: State, b: int)
    requires Tiling(s) && Listed(s, {}) && Mirrors(m, heads, s) && Live(s, b) && s.blk[b].units >= 4
    requires SplitToZero(m, m1, s, b) && s.blk[Next(s, b)].free && Next(s, b) != s.end
    requires var n := Next(s, b);
      n + 3 < |m1| && m1[n + 2] + 3 < |m1| && m1[n + 3] + 2 < |m1| && m2 == Unlink(m1, n)
    ensures var n := Next(s, b);
      && |m2| == |m| && 0 <= b && b + 2 < |m2| && 0 <= n && n + 1 < |m2|
      && m2[b + 2] + SizeOf(m2[n + 1]) + 8 < WORD_LIMIT
      && b + 2 + SizeOf(m2[b + 2] + SizeOf(m2[n + 1]) + 8) / 8 == Next(s, n) && b + 2 < Next(s, n) < |m2|
  {
    UnlinkedAfterZero(m, m1, heads, s, b);
    AbsorbAfterZeroReady(m, m2, heads, s, b);
  }

  /** A removal leaves the heads leading to free blocks. */
  lemma RemovedHeadsOfFree(m: seq<Word>, heads: seq<int>, s: State, n: int, j: nat)
    requires Tiling(s) && Listed(s, {}) && Mirrors(m, heads, s) && n in s.blk && s.blk[n].free && j < CLASS_COUNT
    ensures 0 <= n && n + 2 < |m|
    ensures forall k {:trigger RemovedHead(m, heads, n, j)[k]} :: 0 <= k < CLASS_COUNT ==>
      NullOrFree(s, RemovedHead(m, heads, n, j)[k])
  {
    LinksFree(m, heads, s, n);
    HeadsOfFree(m, heads, s, {});
  }

  lemma JoinedBySuccessor(m: seq<Word>, m1: seq<Word>, m2: seq<Word>, m': seq<Word>, heads: seq<int>, s: State,
      b: int, j: nat)
    requires Tiling(s) && Listed(s, {}) && Mirrors(m, heads, s) && Live(s, b) && s.blk[b].units >= 4 && j < CLASS_COUNT
    requires SplitToZero(m, m1, s, b) && s.blk[Next(s, b)].free && Next(s, b) != s.end && Next(s, b) + 3 < |m|
    requires var n := Next(s, b);
      && m1[n + 2] + 3 < |m1| && m1[n + 3] + 2 < |m1| && m2 == Unlink(m1, n)
      && AbsorbStored(m2, m', b + 1, n, Next(s, n))
    ensures var n := Next(s, b);
      && RemovedHead(m1, heads, n, j) == RemovedHead(m, heads, n, j)
      && JoinedAfterZero(m, m', RemovedHead(m1, heads, n, j), s, b, s.blk[b].units + s.blk[n].units,
                         m[n + 2], m[n + 3], Next(s, n))
  {
    var n := Next(s, b);
    UnlinkedAfterZero(m, m1, heads, s, b);
    AbsorbAfterZeroReady(m, m2, heads, s, b);
    RemovedHeadsOfFree(m, heads, s, n, j);
  }

  /** Filing the rest completes the trim. */
  lemma FiledAfterZero(m: seq<Word>, m1: seq<Word>, heads: seq<int>, heads1: seq<int>, s: State, b: int, units: nat,
      y: int, z: int, e: int, k: nat)
    requires Tiling(s) && Mirrors(m, heads, s) && Live(s, b) && s.blk[b].units >= 4
    requires JoinedAfterZero(m, m1, heads1, s, b, units, y, z, e) && k < CLASS_COUNT && |m| < WORD_LIMIT
    ensures b + 4 < |m1| && 0 <= heads1[k] && heads1[k] + 3 < |m1|
    ensures Spoiled(m, LinkFront(m1, heads1[k], b + 1), heads1[k := b + 1], s, b)
  {
    var h := heads1[k];
    if h in s.blk { BlockFacts(m, heads, s, h); }
    BlockFacts(m, heads, s, b);
    HeaderApart(s, h, b);
    var m' := LinkFront(m1, h, b + 1);
    TrimFrame(m, m', heads, s, b, y, z, h, e);
    assert heads1[k := b + 1][k] == b + 1;
    NothingRepresented(m, m', heads, heads1[k := b + 1], s, b);
  }

  /** The link words of a free block, or of the null block, are not the header word of any block. */
  lemma HeaderApart(s: State, y: int, x: int)
    requires Tiling(s) && NullOrFree(s, y) && x in s.blk
    ensures y + 2 != x + 1 && y + 3 != x + 1
  {
    assert BlockOk(s, x);
    if y in s.blk && y != x {
      assert BlockOk(s, y);
      Disjoint(s, y, x);
    }
  }
}
