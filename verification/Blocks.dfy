/** The abstract heap: which blocks tile the pool and which free list each free block is on.

    Blocks are named by the word address of their header; sizes are counted in 8-byte units.
    The zero-size sentinel that closes the pool is a block too. A heap without a pool has no
    blocks. Every operation of the allocator is given here as a function on abstract heaps. */
module Blocks {
  import opened Mapping

  /** First header word: it follows the 6536-byte control structure less one word. */
  const FIRST: int := 816
  const UNITS_MAX: int := 0x2000_0000

  datatype Blk = Blk(units: nat, free: bool, prevFree: bool)

  datatype State = State(end: int, blk: map<int, Blk>, lists: seq<seq<int>>)

  ghost function Next(s: State, b: int): int
    requires b in s.blk
  {
    b + 1 + s.blk[b].units
  }

  // ---------------------------------------------------------------- invariants

  ghost predicate BlockOk(s: State, b: int)
    requires b in s.blk
  {
    && FIRST <= b <= s.end
    && (if b == s.end then s.blk[b].units == 0 && !s.blk[b].free
        else s.blk[b].units >= 3 && Next(s, b) in s.blk && Next(s, b) <= s.end)
  }

  ghost predicate Ordered(s: State, b: int, c: int)
    requires b in s.blk && c in s.blk
  {
    b < c ==> Next(s, b) <= c
  }

  /** The blocks tile the pool from its first header to the sentinel. */
  ghost predicate Tiling(s: State) {
    && s.end <= FIRST + UNITS_MAX
    && (s.blk != map[] ==> FIRST in s.blk && s.end in s.blk && FIRST < s.end)
    && (forall b {:trigger BlockOk(s, b)} :: b in s.blk ==> BlockOk(s, b))
    && (forall b, c {:trigger Ordered(s, b, c)} :: b in s.blk && c in s.blk ==> Ordered(s, b, c))
  }

  ghost predicate FlagOk(s: State, b: int)
    requires b in s.blk
  {
    b != s.end ==> Next(s, b) in s.blk && s.blk[Next(s, b)].prevFree == s.blk[b].free
  }

  /** Every prev-free flag tells whether the physical predecessor is free. */
  ghost predicate Coherent(s: State) {
    && (FIRST in s.blk ==> !s.blk[FIRST].prevFree)
    && (forall b {:trigger FlagOk(s, b)} :: b in s.blk ==> FlagOk(s, b))
  }

  ghost predicate NotTwoFree(s: State, b: int)
    requires b in s.blk
  {
    b != s.end && s.blk[b].free ==> Next(s, b) in s.blk && !s.blk[Next(s, b)].free
  }

  /** No two free blocks are physically adjacent. */
  ghost predicate Coalesced(s: State) {
    forall b {:trigger NotTwoFree(s, b)} :: b in s.blk ==> NotTwoFree(s, b)
  }

  function UnitClass(units: nat): nat {
    ClassBySize(8 * units)
  }

  ghost predicate MemberOk(s: State, k: nat, b: int, loose: set<int>) {
    b in s.blk && s.blk[b].free && b !in loose && UnitClass(s.blk[b].units) == k
  }

  ghost predicate ListOk(s: State, k: nat, loose: set<int>)
    requires k < |s.lists|
  {
    && (forall b {:trigger b in s.lists[k]} :: b in s.lists[k] ==> MemberOk(s, k, b, loose))
    && NoDup(s.lists[k])
  }

  ghost predicate NoDup(list: seq<int>) {
    forall i, j :: 0 <= i < j < |list| ==> list[i] != list[j]
  }

  ghost predicate OnList(s: State, b: int, loose: set<int>)
    requires b in s.blk
  {
    s.blk[b].free && b !in loose ==>
      UnitClass(s.blk[b].units) < |s.lists| && b in s.lists[UnitClass(s.blk[b].units)]
  }

  /** The lists hold exactly the free blocks that are not loose, once each, by size class. */
  ghost predicate Listed(s: State, loose: set<int>) {
    && |s.lists| == CLASS_COUNT
    && (forall k {:trigger ListOk(s, k, loose)} :: 0 <= k < |s.lists| ==> ListOk(s, k, loose))
    && (forall b {:trigger OnList(s, b, loose)} :: b in s.blk ==> OnList(s, b, loose))
  }

  /** The invariant of the heap between operations. */
  ghost predicate Inv(s: State) {
    Tiling(s) && Coherent(s) && Coalesced(s) && Listed(s, {})
  }

  /** A block in use by the client. */
  ghost predicate Live(s: State, b: int) {
    b in s.blk && b != s.end && !s.blk[b].free
  }

  /** Word w belongs to the payload of live block b. */
  ghost predicate InPayload(s: State, b: int, w: int) {
    Live(s, b) && b + 2 <= w <= Next(s, b)
  }

  // ---------------------------------------------------------------- steps

  function RemoveValue(list: seq<int>, b: int): seq<int> {
    if list == [] then []
    else if list[0] == b then list[1..]
    else [list[0]] + RemoveValue(list[1..], b)
  }

  /** Takes a block off its list; a class outside the table would change nothing. */
  ghost function Unlist(s: State, b: int): State
    requires b in s.blk
  {
    var k := UnitClass(s.blk[b].units);
    if k < |s.lists| then s.(lists := s.lists[k := RemoveValue(s.lists[k], b)]) else s
  }

  /** Puts a block at the front of its list. */
  ghost function Enlist(s: State, b: int): State
    requires b in s.blk
  {
    var k := UnitClass(s.blk[b].units);
    if k < |s.lists| then s.(lists := s.lists[k := [b] + s.lists[k]]) else s
  }

  /** Sets the free flag of a block and the prev-free flag of its successor. */
  ghost function Mark(s: State, b: int, free: bool): State
    requires b in s.blk && Next(s, b) in s.blk
  {
    var n := Next(s, b);
    s.(blk := s.blk[b := s.blk[b].(free := free)][n := s.blk[n].(prevFree := free)])
  }

  /** Header of the second part when block `b` is split after `units`. */
  function Rest(b: int, units: nat): int {
    b + 1 + units
  }

  /** Splits a block; the second part is a free block. */
  ghost function Split(s: State, b: int, units: nat): State
    requires b in s.blk && s.blk[b].units > units && Next(s, b) in s.blk
  {
    var k, n := s.blk[b], Next(s, b);
    s.(blk := s.blk[b := k.(units := units)][Rest(b, units) := Blk(k.units - units - 1, true, k.free)]
                   [n := s.blk[n].(prevFree := true)])
  }

  /** Joins a block with its successor, keeping the first block's flags. */
  ghost function Absorb(s: State, b: int): State
    requires b in s.blk && Next(s, b) in s.blk
  {
    var n := Next(s, b);
    s.(blk := (s.blk - {n})[b := s.blk[b].(units := s.blk[b].units + s.blk[n].units + 1)])
  }

  // ---------------------------------------------------------------- between steps

  /** What holds between the steps of an operation, with some free blocks on no list. */
  ghost predicate Mid(s: State, loose: set<int>) {
    Tiling(s) && Coherent(s) && Listed(s, loose)
  }

  /** Only block `x` may be free with a free successor. */
  ghost predicate CoalescedBut(s: State, x: int) {
    forall b {:trigger NotTwoFree(s, b)} :: b in s.blk && b != x ==> NotTwoFree(s, b)
  }

  // ---------------------------------------------------------------- geometry

  /** A block in the middle of the pool has exactly one physical predecessor. */
  lemma Predecessor(s: State, b: int) returns (p: int)
    requires Tiling(s) && b in s.blk && b != FIRST
    ensures p in s.blk && p != s.end && p < b && Next(s, p) == b
    ensures forall q :: q in s.blk && q != s.end && Next(s, q) == b ==> q == p
  {
    assert BlockOk(s, b);
    p := FIRST;
    assert BlockOk(s, FIRST) && Ordered(s, FIRST, b);
    while Next(s, p) != b
      invariant p in s.blk && p != s.end && p < b && Next(s, p) <= b
      decreases b - p
    {
      var n := Next(s, p);
      assert BlockOk(s, p) && BlockOk(s, n) && Ordered(s, n, b);
      p := n;
    }
    forall q | q in s.blk && q != s.end && Next(s, q) == b ensures q == p {
      assert BlockOk(s, q) && BlockOk(s, p) && Ordered(s, p, q) && Ordered(s, q, p);
    }
  }

  /** Changing flags leaves the tiling alone. */
  lemma TilingSameSizes(s: State, t: State)
    requires Tiling(s) && t.end == s.end && t.blk.Keys == s.blk.Keys
    requires forall b :: b in s.blk ==> t.blk[b].units == s.blk[b].units
    requires s.end in s.blk ==> !t.blk[s.end].free
    ensures Tiling(t)
  {
    forall b | b in t.blk ensures BlockOk(t, b) { assert BlockOk(s, b); }
    forall b, c | b in t.blk && c in t.blk ensures Ordered(t, b, c) { assert Ordered(s, b, c); }
    if t.blk != map[] { var b :| b in t.blk; assert b in s.blk; }
  }

  lemma TilingUnlist(s: State, b: int)
    requires Tiling(s) && b in s.blk
    ensures Tiling(Unlist(s, b))
  {
    assert BlockOk(s, s.end);
    TilingSameSizes(s, Unlist(s, b));
  }

  lemma TilingMark(s: State, b: int, free: bool)
    requires Tiling(s) && b in s.blk && b != s.end
    ensures Next(s, b) in s.blk && Tiling(Mark(s, b, free))
  {
    assert BlockOk(s, b) && BlockOk(s, s.end);
    TilingSameSizes(s, Mark(s, b, free));
  }

  lemma TilingSplit(s: State, b: int, units: nat)
    requires Tiling(s) && b in s.blk && b != s.end && 3 <= units && units + 4 <= s.blk[b].units
    ensures Next(s, b) in s.blk && Rest(b, units) !in s.blk
    ensures b < Rest(b, units) < Next(s, b) <= s.end
    ensures Tiling(Split(s, b, units))
  {
    var n, r := Next(s, b), Rest(b, units);
    assert BlockOk(s, b);
    assert r in s.blk ==> Ordered(s, b, r);
    var t := Split(s, b, units);
    forall x | x in t.blk ensures BlockOk(t, x) { if x != r { assert BlockOk(s, x); } }
    forall x, y | x in t.blk && y in t.blk ensures Ordered(t, x, y) {
      if x == r {
        if y != r { assert Ordered(s, b, y); }
      } else {
        if y == r { assert Ordered(s, x, b) && Ordered(s, b, x); } else { assert Ordered(s, x, y); }
      }
    }
  }

  lemma TilingAbsorb(s: State, b: int)
    requires Tiling(s) && b in s.blk && b != s.end && Next(s, b) != s.end
    ensures Next(s, b) in s.blk && Tiling(Absorb(s, b))
    ensures Next(s, Next(s, b)) in s.blk && Next(Absorb(s, b), b) == Next(s, Next(s, b)) && Next(s, b) > b
  {
    var n := Next(s, b);
    assert BlockOk(s, b) && BlockOk(s, n) && BlockOk(s, FIRST);
    var t := Absorb(s, b);
    forall x | x in t.blk ensures BlockOk(t, x) {
      AbsorbedOk(s, b, x);
    }
    forall x, y | x in t.blk && y in t.blk ensures Ordered(t, x, y) {
      AbsorbedOrdered(s, b, x, y);
    }
  }

  lemma AbsorbedOrdered(s: State, b: int, x: int, y: int)
    requires Tiling(s) && b in s.blk && b != s.end && Next(s, b) in s.blk && Next(s, b) != s.end
    requires x in Absorb(s, b).blk && y in Absorb(s, b).blk
    ensures Ordered(Absorb(s, b), x, y)
  {
    assert Ordered(s, x, y) && Ordered(s, Next(s, b), y);
    assert BlockOk(s, b);
  }

  lemma AbsorbedOk(s: State, b: int, x: int)
    requires Tiling(s) && b in s.blk && b != s.end && Next(s, b) in s.blk && Next(s, b) != s.end
    requires Next(s, Next(s, b)) in s.blk && x in Absorb(s, b).blk
    ensures BlockOk(Absorb(s, b), x)
  {
    var n := Next(s, b);
    assert BlockOk(s, b) && BlockOk(s, n) && BlockOk(s, x);
    assert Ordered(s, x, b) && Ordered(s, b, x);
  }

  // ---------------------------------------------------------------- lists

  lemma {:induction false} RemoveValueFacts(list: seq<int>, b: int, i: nat)
    requires NoDup(list) && i < |list| && list[i] == b
    ensures RemoveValue(list, b) == list[..i] + list[i + 1..]
  {
    if i > 0 {
      RemoveValueFacts(list[1..], b, i - 1);
      assert list[1..][..i - 1] == list[1..i] && list[1..][i..] == list[i + 1..];
      assert [list[0]] + list[1..i] == list[..i];
    }
  }

  lemma RemoveValueMembers(list: seq<int>, b: int)
    requires NoDup(list) && b in list
    ensures NoDup(RemoveValue(list, b))
    ensures forall x :: x in RemoveValue(list, b) <==> x in list && x != b
  {
    var i :| 0 <= i < |list| && list[i] == b;
    RemoveValueFacts(list, b, i);
    var r := RemoveValue(list, b);
    forall x ensures x in r <==> x in list && x != b {
      if x in list && x != b {
        var j :| 0 <= j < |list| && list[j] == x;
        assert r[if j < i then j else j - 1] == x;
      }
    }
  }

  /** Sizes below the pool limit have a class in the table. */
  lemma ClassFits(s: State, b: int)
    requires Tiling(s) && b in s.blk
    ensures UnitClass(s.blk[b].units) < CLASS_COUNT
    ensures 8 * s.blk[b].units < BLOCK_SIZE_MAX
  {
    assert BlockOk(s, b);
    ClassBySizeInTable(8 * s.blk[b].units);
  }

  lemma ListedUnlist(s: State, b: int, loose: set<int>)
    requires Tiling(s) && Listed(s, loose) && b in s.blk && s.blk[b].free && b !in loose
    ensures UnitClass(s.blk[b].units) < |s.lists| && b in s.lists[UnitClass(s.blk[b].units)]
    ensures Listed(Unlist(s, b), loose + {b})
  {
    ClassFits(s, b);
    var c := UnitClass(s.blk[b].units);
    assert OnList(s, b, loose) && ListOk(s, c, loose);
    var t := Unlist(s, b);
    RemoveValueMembers(s.lists[c], b);
    forall k | 0 <= k < |t.lists| ensures ListOk(t, k, loose + {b}) { assert ListOk(s, k, loose); }
    forall x | x in t.blk ensures OnList(t, x, loose + {b}) { assert OnList(s, x, loose); }
  }

  lemma ListedEnlist(s: State, b: int, loose: set<int>)
    requires Tiling(s) && Listed(s, loose) && b in s.blk && s.blk[b].free && b in loose
    ensures UnitClass(s.blk[b].units) < |s.lists| && b !in s.lists[UnitClass(s.blk[b].units)]
    ensures Listed(Enlist(s, b), loose - {b})
  {
    ClassFits(s, b);
    var c := UnitClass(s.blk[b].units);
    assert ListOk(s, c, loose);
    assert b in s.lists[c] ==> MemberOk(s, c, b, loose);
    var t := Enlist(s, b);
    forall k | 0 <= k < |t.lists| ensures ListOk(t, k, loose - {b}) { assert ListOk(s, k, loose); }
    forall x | x in t.blk ensures OnList(t, x, loose - {b}) { assert OnList(s, x, loose); }
  }

  /** Resizing, adding or dropping blocks that are on no list keeps the lists right. */
  lemma ListedOther(s: State, t: State, loose: set<int>, loose': set<int>)
    requires Listed(s, loose) && t.lists == s.lists
    requires forall b :: b in s.blk && s.blk[b].free && b !in loose ==>
      b in t.blk && t.blk[b].free && b !in loose' && t.blk[b].units == s.blk[b].units
    requires forall b :: b in t.blk && t.blk[b].free && b !in loose' ==>
      b in s.blk && s.blk[b].free && b !in loose
    ensures Listed(t, loose')
  {
    forall k | 0 <= k < |t.lists| ensures ListOk(t, k, loose') { assert ListOk(s, k, loose); }
    forall x | x in t.blk ensures OnList(t, x, loose') { if x in s.blk { assert OnList(s, x, loose); } }
  }

  // ---------------------------------------------------------------- steps keep Mid

  lemma MidUnlist(s: State, b: int, loose: set<int>)
    requires Mid(s, loose) && b in s.blk && s.blk[b].free && b !in loose
    ensures UnitClass(s.blk[b].units) < |s.lists| && b in s.lists[UnitClass(s.blk[b].units)]
    ensures Mid(Unlist(s, b), loose + {b})
  {
    ListedUnlist(s, b, loose);
    var t := Unlist(s, b);
    TilingSameSizes(s, t) by { assert s.end in s.blk ==> BlockOk(s, s.end); }
    forall x | x in t.blk ensures FlagOk(t, x) { assert FlagOk(s, x); }
  }

  lemma MidEnlist(s: State, b: int, loose: set<int>)
    requires Mid(s, loose) && b in s.blk && s.blk[b].free && b in loose
    ensures UnitClass(s.blk[b].units) < |s.lists| && b !in s.lists[UnitClass(s.blk[b].units)]
    ensures Mid(Enlist(s, b), loose - {b})
  {
    ListedEnlist(s, b, loose);
    var t := Enlist(s, b);
    TilingSameSizes(s, t) by { assert s.end in s.blk ==> BlockOk(s, s.end); }
    forall x | x in t.blk ensures FlagOk(t, x) { assert FlagOk(s, x); }
  }

  /** Freeing makes a block loose; a loose block may be taken into use. */
  lemma MidMark(s: State, b: int, free: bool, loose: set<int>)
    requires Mid(s, loose) && b in s.blk && b != s.end
    requires if free then !s.blk[b].free else b in loose
    ensures Next(s, b) in s.blk
    ensures Mid(Mark(s, b, free), if free then loose + {b} else loose - {b})
  {
    TilingMark(s, b, free);
    assert BlockOk(s, b);
    var t := Mark(s, b, free);
    var loose' := if free then loose + {b} else loose - {b};
    ListedOther(s, t, loose, loose');
    forall x | x in t.blk ensures FlagOk(t, x) {
      assert FlagOk(s, x) && BlockOk(s, x) && Ordered(s, x, b) && Ordered(s, b, x);
    }
  }

  lemma MidSplit(s: State, b: int, units: nat, loose: set<int>)
    requires Mid(s, loose) && b in s.blk && b != s.end && 3 <= units && units + 4 <= s.blk[b].units
    requires s.blk[b].free ==> b in loose
    ensures Next(s, b) in s.blk && Rest(b, units) !in s.blk
    ensures b < Rest(b, units) < Next(s, b) <= s.end
    ensures Mid(Split(s, b, units), loose + {Rest(b, units)})
  {
    TilingSplit(s, b, units);
    assert BlockOk(s, b);
    var t, r := Split(s, b, units), Rest(b, units);
    ListedOther(s, t, loose, loose + {r});
    forall x | x in t.blk ensures FlagOk(t, x) {
      if x != r {
        assert FlagOk(s, x) && BlockOk(s, x) && Ordered(s, x, b) && Ordered(s, b, x);
      }
    }
  }

  lemma MidAbsorb(s: State, b: int, loose: set<int>)
    requires Mid(s, loose) && b in s.blk && s.blk[b].free && b in loose
    requires Next(s, b) in s.blk && s.blk[Next(s, b)].free && Next(s, b) in loose
    ensures Mid(Absorb(s, b), loose - {Next(s, b)})
    ensures Next(s, b) > b && Next(s, Next(s, b)) in s.blk && Next(Absorb(s, b), b) == Next(s, Next(s, b))
  {
    var n := Next(s, b);
    assert BlockOk(s, b) && BlockOk(s, n) && FlagOk(s, n) && FlagOk(s, b);
    TilingAbsorb(s, b);
    var t := Absorb(s, b);
    ListedOther(s, t, loose, loose - {n});
    forall x | x in t.blk ensures FlagOk(t, x) {
      assert FlagOk(s, x) && BlockOk(s, x) && Ordered(s, x, b) && Ordered(s, b, x);
    }
    assert BlockOk(s, FIRST);
  }
}
