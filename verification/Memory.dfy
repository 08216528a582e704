/** How memory words, list heads and bitmaps represent an abstract heap, and what the
    allocator's stores do to them. */
module Memory {
  import opened Bits
  import opened Mapping
  import opened FreeList
  import opened Blocks

  // ---------------------------------------------------------------- the size word

  /** size & ~3 */
  function SizeOf(w: Word): Word { w - w % 4 }

  predicate FreeBit(w: Word) { w % 4 == 1 || w % 4 == 3 }

  predicate PrevFreeBit(w: Word) { w % 4 >= 2 }

  /** block_set_size: the size replaced, the two flags kept. */
  function WithSize(w: Word, size: Word): int { size + w % 4 }

  function WithFree(w: Word, free: bool): Word {
    w - (if FreeBit(w) then 1 else 0) + (if free then 1 else 0)
  }

  function WithPrevFree(w: Word, prevFree: bool): Word {
    w - (if PrevFreeBit(w) then 2 else 0) + (if prevFree then 2 else 0)
  }

  /** The size word of a block: its size in bytes with the flags in the low bits. */
  function Tag(k: Blk): nat {
    8 * k.units + (if k.free then 1 else 0) + (if k.prevFree then 2 else 0)
  }

  lemma Mod4(q: nat, r: nat)
    requires r < 4
    ensures (8 * q + r) % 4 == r
  {
    assert 8 * q + r == 4 * (2 * q) + r;
    DivModUnique(8 * q + r, 4, 2 * q, r);
  }

  lemma TagReads(k: Blk)
    requires Tag(k) < WORD_LIMIT
    ensures SizeOf(Tag(k)) == 8 * k.units && FreeBit(Tag(k)) == k.free && PrevFreeBit(Tag(k)) == k.prevFree
  {
    Mod4(k.units, Tag(k) - 8 * k.units);
  }

  lemma TagWrites(k: Blk, units: nat, flag: bool)
    requires Tag(k) < WORD_LIMIT && 8 * units + 3 < WORD_LIMIT
    ensures WithSize(Tag(k), 8 * units) == Tag(k.(units := units))
    ensures WithFree(Tag(k), flag) == Tag(k.(free := flag))
    ensures WithPrevFree(Tag(k), flag) == Tag(k.(prevFree := flag))
  {
    Mod4(k.units, Tag(k) - 8 * k.units);
  }

  /** Setting size, free and prev-free in turn fixes a size word whatever it held before. */
  lemma TagFromStale(w: Word, units: nat, free: bool, prevFree: bool)
    requires 8 * units + 3 < WORD_LIMIT
    ensures WithSize(w, 8 * units) < WORD_LIMIT && SizeOf(WithSize(w, 8 * units)) == 8 * units
    ensures WithPrevFree(WithFree(WithSize(w, 8 * units), free), prevFree) == Tag(Blk(units, free, prevFree))
  {
    var stale := Blk(units, FreeBit(w), PrevFreeBit(w));
    assert WithSize(w, 8 * units) == Tag(stale);
    TagReads(stale);
    TagWrites(stale, units, free);
    TagWrites(stale.(free := free), units, prevFree);
  }

  // The flag stores as the code writes them.

  lemma SizeBitwise(w: Word)
    ensures 3 < Pow2(64) && And(w, Not(64, Or(1, 2))) == SizeOf(w)
  {
    Pow2Values();
    assert Or(1, 2) == 2 * Or(0, 1) + 1 == 3;
    AndHighMask(w, 2, 64);
  }

  lemma FlagsBitwise(w: Word)
    ensures And(w, Or(1, 2)) == w % 4
    ensures And(w, 1) != 0 <==> FreeBit(w)
    ensures And(w, 2) != 0 <==> PrevFreeBit(w)
  {
    assert Or(1, 2) == 2 * Or(0, 1) + 1 == 3;
    AndLowBits(w, 2);
    AndLowBits(w, 1);
    AndLowBits(w / 2, 1);
    assert And(w, 2) == 2 * And(w / 2, 1);
  }

  lemma SetSizeBitwise(w: Word, size: Word)
    requires size % 4 == 0
    ensures Or(size, And(w, Or(1, 2))) == WithSize(w, size)
  {
    FlagsBitwise(w);
    OrDisjoint(size, w % 4, 2);
  }

  lemma SetFreeBitwise(w: Word)
    ensures Or(w, 1) == WithFree(w, true) && 1 < Pow2(64) && And(w, Not(64, 1)) == WithFree(w, false)
  {
    hide And, Or;
    Pow2Values();
    OrOne(w);
    AndHighMask(w, 1, 64);
  }

  lemma SetPrevFreeBitwise(w: Word)
    ensures Or(w, 2) == WithPrevFree(w, true) && 2 < Pow2(64) && And(w, Not(64, 2)) == WithPrevFree(w, false)
  {
    Pow2Values();
    OrTwo(w);
    AndNotTwo(w);
  }

  // ---------------------------------------------------------------- representation

  ghost predicate Tagged(m: seq<Word>, s: State, b: int)
    requires b in s.blk
  {
    && 0 <= b && b + 1 < |m| && m[b + 1] == Tag(s.blk[b])
    && (b != s.end && s.blk[b].free ==> Next(s, b) < |m| && m[Next(s, b)] == b)
  }

  ghost predicate Threaded(m: seq<Word>, heads: seq<int>, lists: seq<seq<int>>, k: nat)
    requires k < |heads| && k < |lists|
  {
    Linked(m, heads[k], lists[k])
  }

  ghost predicate SlOk(sl: seq<nat>, lists: seq<seq<int>>, fl: nat)
    requires fl < |sl|
  {
    && sl[fl] < 0x1_0000_0000
    && forall j: nat {:trigger Bit(sl[fl], j)} :: j < SL_INDEX_COUNT ==>
         (Bit(sl[fl], j) <==> ListAt(lists, fl, j) != [])
  }

  /** The list of class (fl, sl). */
  function ListAt(lists: seq<seq<int>>, fl: nat, sl: nat): seq<int> {
    if SL_INDEX_COUNT * fl + sl < |lists| then lists[SL_INDEX_COUNT * fl + sl] else []
  }

  ghost predicate FlOk(flBitmap: nat, sl: seq<nat>) {
    && flBitmap < 0x1_0000_0000
    && forall f: nat {:trigger Bit(flBitmap, f)} :: Bit(flBitmap, f) <==> f < |sl| && sl[f] != 0
  }

  /** The bitmaps are set exactly for the non-empty lists. */
  ghost predicate Bitmapped(flBitmap: nat, sl: seq<nat>, lists: seq<seq<int>>) {
    && |sl| == FL_INDEX_COUNT && |lists| == CLASS_COUNT
    && FlOk(flBitmap, sl)
    && forall f {:trigger SlOk(sl, lists, f)} :: 0 <= f < |sl| ==> SlOk(sl, lists, f)
  }

  /** Memory m and heads represent the blocks and lists of s. */
  ghost predicate Mirrors(m: seq<Word>, heads: seq<int>, s: State) {
    && |heads| == CLASS_COUNT && |s.lists| == CLASS_COUNT
    && FIRST + 1 < |m| < 0x1000_0000_0000 && s.end + 1 < |m|
    && (forall b {:trigger Tagged(m, s, b)} :: b in s.blk ==> Tagged(m, s, b))
    && (forall k {:trigger Threaded(m, heads, s.lists, k)} :: 0 <= k < CLASS_COUNT ==> Threaded(m, heads, s.lists, k))
  }

  // ---------------------------------------------------------------- frames

  /** Words of m outside the control words of listed blocks may change freely. */
  ghost predicate KeepsLinks(m: seq<Word>, m': seq<Word>, s: State, loose: set<int>) {
    |m'| == |m| &&
    forall x {:trigger LinkWordsKept(m, m', x)} ::
      x in s.blk && s.blk[x].free && x !in loose ==> LinkWordsKept(m, m', x)
  }

  ghost predicate LinkWordsKept(m: seq<Word>, m': seq<Word>, x: int) {
    0 <= x && x + 3 < |m| && x + 3 < |m'| && m'[x + 2] == m[x + 2] && m'[x + 3] == m[x + 3]
  }

  lemma ThreadsKept(m: seq<Word>, m': seq<Word>, heads: seq<int>, s: State, loose: set<int>)
    requires Mirrors(m, heads, s) && Listed(s, loose) && KeepsLinks(m, m', s, loose)
    ensures forall k {:trigger Threaded(m', heads, s.lists, k)} :: 0 <= k < CLASS_COUNT ==>
      Threaded(m', heads, s.lists, k)
  {
    forall k | 0 <= k < CLASS_COUNT ensures Threaded(m', heads, s.lists, k) {
      assert Threaded(m, heads, s.lists, k) && ListOk(s, k, loose);
      forall i | 0 <= i < |s.lists[k]| ensures LinkWordsKept(m, m', s.lists[k][i]) {
        assert s.lists[k][i] in s.lists[k];
        assert MemberOk(s, k, s.lists[k][i], loose);
      }
      LinkedFrame(m, m', heads[k], s.lists[k]);
    }
  }

  /** Distinct blocks occupy disjoint words. */
  lemma Disjoint(s: State, x: int, b: int)
    requires Tiling(s) && x in s.blk && b in s.blk && x != b
    ensures FIRST <= x && FIRST <= b && (Next(s, x) <= b || Next(s, b) <= x)
    ensures x != s.end ==> Next(s, x) >= x + 4
  {
    assert Ordered(s, x, b) && Ordered(s, b, x) && BlockOk(s, x) && BlockOk(s, b);
  }

  // ---------------------------------------------------------------- stores to size words

  lemma BlockFacts(m: seq<Word>, heads: seq<int>, s: State, b: int)
    requires Mirrors(m, heads, s) && Tiling(s) && b in s.blk
    ensures FIRST <= b && b + 1 < |m| && Tag(s.blk[b]) < 0x1_0000_0004
    ensures b != s.end ==> Next(s, b) in s.blk && b + 4 <= Next(s, b) && Next(s, b) + 1 < |m| && Next(s, b) <= s.end
    ensures m[b + 1] == Tag(s.blk[b]) && SizeOf(m[b + 1]) == 8 * s.blk[b].units
    ensures FreeBit(m[b + 1]) == s.blk[b].free && PrevFreeBit(m[b + 1]) == s.blk[b].prevFree
    ensures b != s.end && s.blk[b].free ==> m[Next(s, b)] == b
    ensures b == s.end <==> SizeOf(m[b + 1]) == 0
  {
    assert BlockOk(s, b) && Tagged(m, s, b);
    TagReads(s.blk[b]);
  }

  /** A block is tagged as before when its words and its entry are unchanged. */
  lemma TaggedFrame(m: seq<Word>, m': seq<Word>, s: State, t: State, x: int)
    requires x in s.blk && x in t.blk && Tagged(m, s, x) && |m'| == |m| && t.end == s.end && t.blk[x] == s.blk[x]
    requires m'[x + 1] == m[x + 1] && (x != s.end && s.blk[x].free ==> m'[Next(s, x)] == m[Next(s, x)])
    ensures Tagged(m', t, x)
  {
  }

  /** m' differs from m at most in the given words. */
  ghost predicate OnlyAt(m: seq<Word>, m': seq<Word>, words: set<int>) {
    |m'| == |m| && forall w {:trigger m'[w]} :: 0 <= w < |m| && w !in words ==> m'[w] == m[w]
  }

  /** block_mark_as_free and block_mark_as_used. */
  lemma MarkMirrors(m: seq<Word>, m': seq<Word>, heads: seq<int>, s: State, loose: set<int>, b: int, free: bool)
    requires Mirrors(m, heads, s) && Tiling(s) && Listed(s, loose) && b in s.blk && b != s.end && Next(s, b) in s.blk
    requires s.blk[b].free ==> b in loose
    requires OnlyAt(m, m', {b + 1, Next(s, b), Next(s, b) + 1}) && 0 <= b < Next(s, b) < |m| - 1
    requires var t := Mark(s, b, free);
      m'[b + 1] == Tag(t.blk[b]) && m'[Next(s, b) + 1] == Tag(t.blk[Next(s, b)]) && (free ==> m'[Next(s, b)] == b)
    ensures Mirrors(m', heads, Mark(s, b, free))
  {
    var n, t := Next(s, b), Mark(s, b, free);
    BlockFacts(m, heads, s, b);
    BlockFacts(m, heads, s, n);
    forall x | x in t.blk ensures Tagged(m', t, x) {
      BlockFacts(m, heads, s, x);
      assert Tagged(m, s, x);
      if x != b {
        Disjoint(s, x, b);
        if x != n {
          Disjoint(s, x, n);
          TaggedFrame(m, m', s, t, x);
        }
      }
    }
    MarkKeepsLinks(m, m', s, loose, b);
    ThreadsKept(m, m', heads, s, loose);
  }

  /** Stores to the header of b, to its last word and to the header of its successor miss
      the links of listed blocks. */
  lemma MarkKeepsLinks(m: seq<Word>, m': seq<Word>, s: State, loose: set<int>, b: int)
    requires Tiling(s) && b in s.blk && b != s.end && (s.blk[b].free ==> b in loose)
    requires OnlyAt(m, m', {b + 1, Next(s, b), Next(s, b) + 1}) && s.end + 1 < |m|
    ensures KeepsLinks(m, m', s, loose)
  {
    assert BlockOk(s, b);
    var n := Next(s, b);
    forall x | x in s.blk && s.blk[x].free && x !in loose ensures LinkWordsKept(m, m', x) {
      assert BlockOk(s, x);
      Disjoint(s, x, b);
      if x != n { Disjoint(s, x, n); }
    }
  }

  /** block_split with the flag and link repairs its callers make. */
  lemma SplitMirrors(m: seq<Word>, m': seq<Word>, heads: seq<int>, s: State, loose: set<int>, b: int, units: nat)
    requires Mirrors(m, heads, s) && Tiling(s) && Listed(s, loose) && b in s.blk && b != s.end && Next(s, b) in s.blk
    requires (s.blk[b].free ==> b in loose) && 3 <= units && units + 4 <= s.blk[b].units
    requires 0 <= b && Next(s, b) < |m| - 1
    requires OnlyAt(m, m', {b + 1, Rest(b, units), Rest(b, units) + 1, Next(s, b), Next(s, b) + 1})
    requires var t, r, n := Split(s, b, units), Rest(b, units), Next(s, b);
      && m'[b + 1] == Tag(t.blk[b]) && m'[n + 1] == Tag(t.blk[n]) && m'[n] == r
      && m'[r + 1] == Tag(Blk(s.blk[b].units - units - 1, true, s.blk[b].free)) && (s.blk[b].free ==> m'[r] == b)
    ensures Mirrors(m', heads, Split(s, b, units))
  {
    hide SizeOf, Tiling;
    var n, t, r := Next(s, b), Split(s, b, units), Rest(b, units);
    TilingSplit(s, b, units);
    BlockFacts(m, heads, s, b);
    BlockFacts(m, heads, s, n);
    forall x | x in t.blk ensures Tagged(m', t, x) {
      if x != r {
        BlockFacts(m, heads, s, x);
        assert Tagged(m, s, x);
        if x != b {
          Disjoint(s, x, b);
          if x != n {
            Disjoint(s, x, n);
            TaggedFrame(m, m', s, t, x);
          }
        }
      }
    }
    SplitKeepsLinks(m, m', s, loose, b, units);
    ThreadsKept(m, m', heads, s, loose);
  }

  lemma SplitKeepsLinks(m: seq<Word>, m': seq<Word>, s: State, loose: set<int>, b: int, units: nat)
    requires Tiling(s) && b in s.blk && b != s.end && (s.blk[b].free ==> b in loose)
    requires 3 <= units && units + 4 <= s.blk[b].units && s.end + 1 < |m|
    requires OnlyAt(m, m', {b + 1, Rest(b, units), Rest(b, units) + 1, Next(s, b), Next(s, b) + 1})
    ensures KeepsLinks(m, m', s, loose)
  {
    assert BlockOk(s, b);
    var n := Next(s, b);
    forall x | x in s.blk && s.blk[x].free && x !in loose ensures LinkWordsKept(m, m', x) {
      assert BlockOk(s, x);
      Disjoint(s, x, b);
      if x != n { Disjoint(s, x, n); }
    }
  }

  /** block_absorb: a block takes over its successor, which is free and on no list. */
  lemma AbsorbMirrors(m: seq<Word>, m': seq<Word>, heads: seq<int>, s: State, loose: set<int>, b: int)
    requires Mirrors(m, heads, s) && Tiling(s) && Listed(s, loose) && b in s.blk && b != s.end
    requires Next(s, b) in s.blk && Next(s, b) != s.end && Next(s, Next(s, b)) in s.blk
    requires (s.blk[b].free ==> b in loose) && s.blk[Next(s, b)].free && Next(s, b) in loose
    requires OnlyAt(m, m', {b + 1, Next(s, Next(s, b))}) && 0 <= b < Next(s, Next(s, b)) < |m|
    requires m'[b + 1] == Tag(Absorb(s, b).blk[b]) && m'[Next(s, Next(s, b))] == b
    ensures Mirrors(m', heads, Absorb(s, b))
  {
    var n, t := Next(s, b), Absorb(s, b);
    var e := Next(s, n);
    TilingAbsorb(s, b);
    BlockFacts(m, heads, s, b);
    BlockFacts(m, heads, s, n);
    forall x | x in t.blk ensures Tagged(m', t, x) {
      BlockFacts(m, heads, s, x);
      assert Tagged(m, s, x);
      if x != b {
        Disjoint(s, x, b);
        Disjoint(s, x, n);
        TaggedFrame(m, m', s, t, x);
      }
    }
    forall x | x in s.blk && s.blk[x].free && x !in loose ensures LinkWordsKept(m, m', x) {
      BlockFacts(m, heads, s, x);
      assert BlockOk(s, x);
      Disjoint(s, x, b);
      Disjoint(s, x, n);
    }
    ThreadsKept(m, m', heads, s, loose);
  }

  // ---------------------------------------------------------------- stores to link words

  ghost predicate NullOrBlock(s: State, y: int) {
    y == NULL_BLOCK || (y in s.blk && y != s.end)
  }

  /** Stores to the link words of blocks disturb no size word and no link to a predecessor. */
  lemma LinkStoresKeepTags(m: seq<Word>, m': seq<Word>, heads: seq<int>, s: State, y: int, z: int)
    requires Mirrors(m, heads, s) && Tiling(s) && NullOrBlock(s, y) && NullOrBlock(s, z)
    requires OnlyAt(m, m', {y + 2, y + 3, z + 2, z + 3})
    ensures forall x {:trigger Tagged(m', s, x)} :: x in s.blk ==> Tagged(m', s, x)
  {
    forall x | x in s.blk ensures Tagged(m', s, x) {
      assert Tagged(m, s, x);
      BlockFacts(m, heads, s, x);
      if y in s.blk { BlockFacts(m, heads, s, y); if y != x { Disjoint(s, x, y); } }
      if z in s.blk { BlockFacts(m, heads, s, z); if z != x { Disjoint(s, x, z); } }
      TaggedFrame(m, m', s, s, x);
    }
  }

  /** ... nor the lists of other classes. */
  lemma LinkStoresKeepList(m: seq<Word>, m': seq<Word>, heads: seq<int>, s: State, loose: set<int>, y: int, z: int,
      k: nat)
    requires Mirrors(m, heads, s) && Tiling(s) && Listed(s, loose) && NullOrBlock(s, y) && NullOrBlock(s, z)
    requires OnlyAt(m, m', {y + 2, y + 3, z + 2, z + 3}) && k < CLASS_COUNT
    requires y !in s.lists[k] && z !in s.lists[k]
    ensures Threaded(m', heads, s.lists, k)
  {
    assert Threaded(m, heads, s.lists, k) && ListOk(s, k, loose);
    var l := s.lists[k];
    forall i | 0 <= i < |l| ensures LinkWordsKept(m, m', l[i]) {
      var x := l[i];
      assert x in l;
      assert MemberOk(s, k, x, loose);
      BlockFacts(m, heads, s, x);
      assert BlockOk(s, x);
      if y in s.blk { BlockFacts(m, heads, s, y); Disjoint(s, x, y); }
      if z in s.blk { BlockFacts(m, heads, s, z); Disjoint(s, x, z); }
    }
    LinkedFrame(m, m', heads[k], l);
  }

  /** A block on a list, or a neighbour of one, is the null block or a block in no other list. */
  lemma ListMember(s: State, loose: set<int>, k: nat, i: int)
    requires Tiling(s) && Listed(s, loose) && k < CLASS_COUNT
    ensures NullOrBlock(s, At(s.lists[k], i))
    ensures forall j {:trigger s.lists[j]} :: 0 <= j < CLASS_COUNT && j != k ==> At(s.lists[k], i) !in s.lists[j]
    ensures At(s.lists[k], i) in s.blk ==> s.blk[At(s.lists[k], i)].free
  {
    var y := At(s.lists[k], i);
    assert ListOk(s, k, loose);
    if y in s.blk { NotNull(s, y); }
    if 0 <= i < |s.lists[k]| {
      assert y in s.lists[k];
      assert MemberOk(s, k, y, loose);
      assert BlockOk(s, y);
    }
    forall j | 0 <= j < CLASS_COUNT && j != k ensures y !in s.lists[j] {
      assert ListOk(s, j, loose);
      assert y in s.lists[j] ==> MemberOk(s, j, y, loose);
    }
  }

  lemma NotNull(s: State, y: int)
    requires Tiling(s) && y in s.blk
    ensures y >= FIRST
  {
    assert BlockOk(s, y);
  }

  ghost predicate RemovedAt(s: State, k: nat, i: nat, b: int) {
    k < |s.lists| && i < |s.lists[k]| && s.lists[k][i] == b
  }

  /** remove_free_block: the stores to links and to the head take the block off its list. */
  lemma UnlistMirrors(m: seq<Word>, heads: seq<int>, s: State, loose: set<int>, b: int, i: nat)
    requires Mirrors(m, heads, s) && Tiling(s) && Listed(s, loose) && b in s.blk
    requires RemovedAt(s, UnitClass(s.blk[b].units), i, b)
    ensures 0 <= b && b + 3 < |m| && m[b + 2] + 3 < |m| && m[b + 3] + 2 < |m|
    ensures var k := UnitClass(s.blk[b].units);
      var heads' := if heads[k] == b then heads[k := m[b + 2]] else heads;
      && Mirrors(Unlink(m, b), heads', Unlist(s, b))
      && (heads[k] == b <==> i == 0) && m[b + 2] == At(s.lists[k], i + 1) && m[b + 3] == At(s.lists[k], i - 1)
  {
    var k := UnitClass(s.blk[b].units);
    var l := s.lists[k];
    assert Threaded(m, heads, s.lists, k) && ListOk(s, k, loose);
    UnlinkRemoves(m, heads[k], l, i);
    RemoveValueFacts(l, b, i);
    assert Node(m, l, i);
    var m' := Unlink(m, b);
    var y, z := At(l, i + 1), At(l, i - 1);
    ListMember(s, loose, k, i + 1);
    ListMember(s, loose, k, i - 1);
    LinkStoresKeepTags(m, m', heads, s, y, z);
    var heads' := if heads[k] == b then heads[k := m[b + 2]] else heads;
    var t := Unlist(s, b);
    forall x | x in t.blk ensures Tagged(m', t, x) { assert Tagged(m', s, x); }
    forall j | 0 <= j < CLASS_COUNT ensures Threaded(m', heads', t.lists, j) {
      if j != k { LinkStoresKeepList(m, m', heads, s, loose, y, z, j); assert Threaded(m', heads, s.lists, j); }
    }
  }

  lemma EnlistSpaced(m: seq<Word>, heads: seq<int>, s: State, loose: set<int>, b: int)
    requires Mirrors(m, heads, s) && Tiling(s) && Listed(s, loose) && b in s.blk && b != s.end && s.blk[b].free
      && b in loose
    requires UnitClass(s.blk[b].units) < CLASS_COUNT
    ensures Spaced(m, [b] + s.lists[UnitClass(s.blk[b].units)])
  {
    var k := UnitClass(s.blk[b].units);
    var l := s.lists[k];
    var all := [b] + l;
    assert Threaded(m, heads, s.lists, k) && ListOk(s, k, loose);
    BlockFacts(m, heads, s, b);
    forall i | 0 < i < |all| ensures all[i] in s.blk && all[i] != b && (Apart(all, i, 0) && Apart(all, 0, i)) {
      assert all[i] == l[i - 1] && l[i - 1] in l;
      assert MemberOk(s, k, all[i], loose);
      BlockFacts(m, heads, s, all[i]);
      assert BlockOk(s, all[i]);
      Disjoint(s, all[i], b);
    }
    forall i, j | 0 <= i < |all| && 0 <= j < |all| && i != j ensures Apart(all, i, j) {
      if i > 0 && j > 0 { assert Apart(l, i - 1, j - 1); }
    }
  }

  /** insert_free_block: the stores to links and to the head put the block in front of its list. */
  lemma EnlistMirrors(m: seq<Word>, heads: seq<int>, s: State, loose: set<int>, b: int)
    requires Mirrors(m, heads, s) && Tiling(s) && Listed(s, loose) && b in s.blk && b != s.end && s.blk[b].free
      && b in loose
    requires UnitClass(s.blk[b].units) < CLASS_COUNT
    ensures var k := UnitClass(s.blk[b].units);
      && 0 <= b && b + 3 < |m| && 0 <= heads[k] && heads[k] + 3 < |m| && heads[k] == At(s.lists[k], 0)
      && Mirrors(LinkFront(m, heads[k], b), heads[k := b], Enlist(s, b))
  {
    var k := UnitClass(s.blk[b].units);
    var l := s.lists[k];
    assert Threaded(m, heads, s.lists, k) && ListOk(s, k, loose);
    EnlistSpaced(m, heads, s, loose, b);
    LinkFrontAdds(m, heads[k], l, b);
    var m' := LinkFront(m, heads[k], b);
    var y := At(l, 0);
    ListMember(s, loose, k, 0);
    LinkStoresKeepTags(m, m', heads, s, y, b);
    var heads', t := heads[k := b], Enlist(s, b);
    forall x | x in t.blk ensures Tagged(m', t, x) { assert Tagged(m', s, x); }
    forall j | 0 <= j < CLASS_COUNT ensures Threaded(m', heads', t.lists, j) {
      if j != k {
        assert ListOk(s, j, loose);
        assert b in s.lists[j] ==> MemberOk(s, j, b, loose);
        LinkStoresKeepList(m, m', heads, s, loose, y, b, j);
        assert Threaded(m', heads, s.lists, j);
      }
    }
  }

  // ---------------------------------------------------------------- client data

  /** The words the allocator never writes: those of its bitmaps and list heads, which are kept apart
      here, with the word before the first header, and those beyond the sentinel. */
  ghost predicate Untouched(m: seq<Word>, m': seq<Word>, end: int) {
    |m'| == |m| && forall w {:trigger m'[w]} :: 4 <= w < |m| && (w <= FIRST || w > end + 1) ==> m'[w] == m[w]
  }

  /** Words that belong to the same live block before and after are unchanged, and so is what is not
      the pool's. */
  ghost predicate Kept(m: seq<Word>, m': seq<Word>, s: State, t: State) {
    && Untouched(m, m', s.end) && t.end == s.end
    && forall b, w {:trigger InPayload(s, b, w)} ::
      0 <= w < |m| && InPayload(s, b, w) && InPayload(t, b, w) ==> m'[w] == m[w]
  }

  /** Every payload word of s is a payload word of the same block in t. */
  ghost predicate PayloadsWithin(s: State, t: State) {
    forall b, w {:trigger InPayload(s, b, w)} :: InPayload(s, b, w) ==> InPayload(t, b, w)
  }

  lemma KeptTwice(m0: seq<Word>, m1: seq<Word>, m2: seq<Word>, s0: State, s1: State, s2: State)
    requires Kept(m0, m1, s0, s1) && Kept(m1, m2, s1, s2)
    requires PayloadsWithin(s0, s1) || PayloadsWithin(s2, s1)
    ensures Kept(m0, m2, s0, s2)
  {
  }

  /** Neither a header word, nor any word of a free block, nor a control word is payload. */
  lemma NotPayload(s: State, b: int, w: int)
    requires Tiling(s)
    requires w < FIRST || (b in s.blk && (w == b + 1 || (s.blk[b].free && b + 1 <= w <= Next(s, b))))
    ensures forall x :: !InPayload(s, x, w)
  {
    forall x ensures !InPayload(s, x, w) {
      if x in s.blk {
        assert BlockOk(s, x);
        if b in s.blk && x != b { Disjoint(s, x, b); }
      }
    }
  }

  /** A client storing into the payload of its own block disturbs nothing of the heap. */
  lemma ClientStoreMirrors(m: seq<Word>, m': seq<Word>, heads: seq<int>, s: State, loose: set<int>, b: int)
    requires Mirrors(m, heads, s) && Tiling(s) && Listed(s, loose) && Live(s, b)
    requires |m'| == |m| && forall w {:trigger m'[w]} :: 0 <= w < |m| && !InPayload(s, b, w) ==> m'[w] == m[w]
    ensures Mirrors(m', heads, s)
  {
    BlockFacts(m, heads, s, b);
    forall x | x in s.blk ensures Tagged(m', s, x) {
      assert Tagged(m, s, x);
      BlockFacts(m, heads, s, x);
      if x != b { Disjoint(s, x, b); }
      TaggedFrame(m, m', s, s, x);
    }
    forall x | x in s.blk && s.blk[x].free && x !in loose ensures LinkWordsKept(m, m', x) {
      BlockFacts(m, heads, s, x);
      assert BlockOk(s, x);
      Disjoint(s, x, b);
    }
    ThreadsKept(m, m', heads, s, loose);
  }

  /** The list of a removed block is left empty exactly when the block was its head and had
      no successor. */
  lemma UnlistLast(s: State, loose: set<int>, k: nat, i: nat, b: int)
    requires Tiling(s) && Listed(s, loose) && RemovedAt(s, k, i, b) && k < CLASS_COUNT
    ensures RemoveValue(s.lists[k], b) == [] <==> i == 0 && At(s.lists[k], 1) == NULL_BLOCK
  {
    assert ListOk(s, k, loose);
    RemoveValueFacts(s.lists[k], b, i);
    ListMember(s, loose, k, 1);
    if |s.lists[k]| > 1 {
      assert s.lists[k][1] in s.lists[k];
      assert MemberOk(s, k, s.lists[k][1], loose);
      NotNull(s, s.lists[k][1]);
    }
  }

  /** Unlinking touches no payload. */
  lemma LinkStoresKept(m: seq<Word>, m': seq<Word>, heads: seq<int>, s: State, t: State, y: int, z: int)
    requires Tiling(s) && t.blk == s.blk && t.end == s.end && OnlyAt(m, m', {y + 2, y + 3, z + 2, z + 3})
    requires Mirrors(m, heads, s)
    requires NullOrFree(s, y) && NullOrFree(s, z)
    ensures Kept(m, m', s, t)
  {
    LinksInside(s, y);
    LinksInside(s, z);
    forall b, w | 0 <= w < |m| && InPayload(s, b, w) && InPayload(t, b, w) ensures m'[w] == m[w] {
      BlockFacts(m, heads, s, b);
      FreeWords(s, y, b, w);
      FreeWords(s, z, b, w);
    }
  }

  ghost predicate NullOrFree(s: State, y: int) {
    y == NULL_BLOCK || (y in s.blk && y != s.end && s.blk[y].free)
  }

  /** Link words lie in the null block or in the pool. */
  lemma LinksInside(s: State, y: int)
    requires Tiling(s) && NullOrFree(s, y)
    ensures y == NULL_BLOCK || FIRST <= y <= s.end - 4
  {
    if y in s.blk { assert BlockOk(s, y); }
  }

  lemma ListNeighbour(s: State, loose: set<int>, k: nat, i: int)
    requires Tiling(s) && Listed(s, loose) && k < CLASS_COUNT
    ensures NullOrFree(s, At(s.lists[k], i))
  {
    ListMember(s, loose, k, i);
  }

  lemma FreeWords(s: State, y: int, b: int, w: int)
    requires Tiling(s) && NullOrFree(s, y) && InPayload(s, b, w)
    ensures w != y + 2 && w != y + 3
  {
    assert BlockOk(s, b);
    if y in s.blk {
      assert BlockOk(s, y);
      Disjoint(s, y, b);
    }
  }
}
