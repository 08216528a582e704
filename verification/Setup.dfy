/** Facts for setting up, checking and taking down the heap. */
module Setup {
  import opened Bits
  import opened Mapping
  import opened FreeList
  import opened Blocks
  import opened HeapTheorems
  import opened Memory
  import opened Steps

  lemma NoPoolMirrors(m: seq<Word>, heads: seq<int>, flMap: nat, slMap: seq<nat>)
    requires FIRST + 1 < |m| < 0x1000_0000_0000 && |heads| == CLASS_COUNT && |slMap| == FL_INDEX_COUNT && flMap == 0
    requires forall k :: 0 <= k < CLASS_COUNT ==> heads[k] == NULL_BLOCK
    requires forall f :: 0 <= f < FL_INDEX_COUNT ==> slMap[f] == 0
    ensures var s := NoPool();
      Inv(s) && Tiling(s) && Listed(s, {}) && Mirrors(m, heads, s) && Bitmapped(flMap, slMap, s.lists)
  {
    NoPoolInv();
    var s := NoPool();
    forall k | 0 <= k < CLASS_COUNT ensures Threaded(m, heads, s.lists, k) { }
    forall f | 0 <= f < |slMap| ensures SlOk(slMap, s.lists, f) {
      forall j: nat | j < SL_INDEX_COUNT ensures !Bit(slMap[f], j) { BitOfZero(j); }
    }
    forall f: nat ensures !Bit(flMap, f) { BitOfZero(f); }
  }

  /** The pool size tlsf_add_pool computes: two header words less, which wraps for fewer than 16
      bytes, rounded down to 8. */
  function PoolBytes(bytes: nat): nat {
    var x := (bytes - 16) % WORD_LIMIT;
    x - x % 8
  }

  /** A size that wraps is refused; of the others every whole word but two is used. */
  lemma PoolFits(bytes: nat)
    requires bytes < WORD_LIMIT
    ensures PoolBytes(bytes) % 8 == 0
    ensures if bytes < 16 then PoolBytes(bytes) > BLOCK_SIZE_MAX else PoolBytes(bytes) / 8 + 2 == bytes / 8
  {
    assert bytes >= 16 ==> (bytes - 16) % WORD_LIMIT == bytes - 16;
    assert bytes < 16 ==> (bytes - 16) % WORD_LIMIT == bytes - 16 + WORD_LIMIT;
  }

  /** A pool as tlsf_add_pool's stores leave it, which file the block before they write the
      sentinel: the same words as with the sentinel written first. */
  lemma SentinelCommutes(m: seq<Word>, b: int, head: int, end: int, w: Word)
    requires 0 <= b && b + 4 <= end && end + 1 < |m| < WORD_LIMIT && 0 <= head && head + 3 <= b
    ensures var m' := m[end := b][end + 1 := w];
      LinkFront(m, head, b)[end := b][end + 1 := w] == LinkFront(m', head, b)
  {
  }

  lemma EmptyHeads(m: seq<Word>, heads: seq<int>, s: State)
    requires Mirrors(m, heads, s) && s.lists == EmptyLists()
    ensures forall k {:trigger heads[k]} :: 0 <= k < CLASS_COUNT ==> heads[k] == NULL_BLOCK
  {
    forall k | 0 <= k < CLASS_COUNT ensures heads[k] == NULL_BLOCK { assert Threaded(m, heads, s.lists, k); }
  }

  /** A new pool whose block is not yet on its list. */
  ghost function Unfiled(units: nat): State
    requires 3 <= units < UNITS_MAX
  {
    Fresh(units).(lists := EmptyLists())
  }

  lemma UnfiledReady(m: seq<Word>, heads: seq<int>, s: State, units: nat)
    requires 3 <= units < UNITS_MAX && s == Unfiled(units)
    requires |heads| == CLASS_COUNT && s.end + 1 < |m| < 0x1000_0000_0000
    requires m[FIRST + 1] == Tag(Blk(units, true, false)) && m[s.end + 1] == Tag(Blk(0, false, true))
      && m[s.end] == FIRST
    requires forall k {:trigger heads[k]} :: 0 <= k < CLASS_COUNT ==> heads[k] == NULL_BLOCK
    ensures Tiling(s) && Listed(s, {FIRST}) && Mirrors(m, heads, s)
  {
    forall b | b in s.blk ensures BlockOk(s, b) && OnList(s, b, {FIRST}) && Tagged(m, s, b) { }
    forall b, c | b in s.blk && c in s.blk ensures Ordered(s, b, c) { }
    forall k | 0 <= k < CLASS_COUNT ensures ListOk(s, k, {FIRST}) && Threaded(m, heads, s.lists, k) { }
  }

  /** The stores of tlsf_add_pool amount to the new block filed on its list. */
  lemma PoolWritten(m: seq<Word>, m': seq<Word>, heads: seq<int>, flMap: nat, slMap: seq<nat>, units: nat, fl: nat,
      sl: nat)
    requires 3 <= units < UNITS_MAX && FIRST + units + 2 < |m| < 0x1000_0000_0000 && |heads| == CLASS_COUNT
    requires forall k {:trigger heads[k]} :: 0 <= k < CLASS_COUNT ==> heads[k] == NULL_BLOCK
    requires m[FIRST + 1] == Tag(Blk(units, true, false)) && Bitmapped(flMap, slMap, EmptyLists())
    requires fl < FL_INDEX_COUNT && sl < SL_INDEX_COUNT && UnitClass(units) == SL_INDEX_COUNT * fl + sl
    requires var end := FIRST + 1 + units;
      m' == LinkFront(m, NULL_BLOCK, FIRST)[end := FIRST][end + 1 := Tag(Blk(0, false, true))]
    ensures var t := Enlist(Unfiled(units), FIRST);
      && Tiling(t) && Listed(t, {}) && Mirrors(m', heads[SL_INDEX_COUNT * fl + sl := FIRST], t)
      && |slMap| == FL_INDEX_COUNT
      && Bitmapped(Or(flMap, Shl32(1, fl)), slMap[fl := Or(slMap[fl], Shl32(1, sl))], t.lists)
  {
    hide Bitmapped, Tiling, Listed, Mirrors;
    var s, end := Unfiled(units), FIRST + 1 + units;
    var link: Word, w: Word := FIRST, Tag(Blk(0, false, true));
    var m1: seq<Word> := m[end := link][end + 1 := w];
    SentinelCommutes(m, FIRST, NULL_BLOCK, end, w);
    UnfiledReady(m1, heads, s, units);
    InsertStep(m1, heads, flMap, slMap, s, {FIRST}, FIRST, fl, sl);
    assert {FIRST} - {FIRST} == {};
    RowsOf(flMap, slMap, EmptyLists());
  }

  lemma RowsOf(flMap: nat, slMap: seq<nat>, lists: seq<seq<int>>)
    requires Bitmapped(flMap, slMap, lists)
    ensures |slMap| == FL_INDEX_COUNT
  {
  }

  lemma UnfiledEnlisted(units: nat)
    requires 3 <= units < UNITS_MAX
    ensures Enlist(Unfiled(units), FIRST) == Fresh(units)
  {
    ClassBySizeInTable(8 * units);
    var k := UnitClass(units);
    assert [FIRST] + EmptyLists()[k] == [FIRST];
  }

  lemma PoolRemoved(m: seq<Word>, heads: seq<int>, s: State)
    requires Inv(s) && 3 <= s.end - FIRST - 1 < UNITS_MAX && s == Fresh(s.end - FIRST - 1)
    requires Mirrors(m, heads, Unlist(s, FIRST))
    ensures var t := State(s.end, map[], EmptyLists());
      Unlist(s, FIRST).lists == EmptyLists() && Inv(t) && Tiling(t) && Listed(t, {}) && Mirrors(m, heads, t)
  {
    var units := s.end - FIRST - 1;
    ClassBySizeInTable(8 * units);
    UnlistEnlist(Unfiled(units), FIRST);
    UnfiledEnlisted(units);
    var t := State(s.end, map[], EmptyLists());
    forall k | 0 <= k < CLASS_COUNT ensures ListOk(t, k, {}) && Threaded(m, heads, t.lists, k) {
      assert Threaded(m, heads, Unlist(s, FIRST).lists, k);
    }
  }
}
