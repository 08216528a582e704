/** Whole-heap results: the invariant over every run, disjoint payloads, conservation,
    full reclaim, and free as the inverse of malloc and memalign. */
module HeapTheorems {
  import opened Bits
  import opened Mapping
  import opened FreeList
  import opened Blocks
  import opened HeapSpec

  // ---------------------------------------------------------------- free undoes malloc

  lemma UnlistEnlist(s: State, b: int)
    requires b in s.blk
    ensures Unlist(Enlist(s, b), b) == s
  {
    var k := UnitClass(s.blk[b].units);
    if k < |s.lists| {
      assert RemoveValue([b] + s.lists[k], b) == s.lists[k];
      assert s.lists[k := [b] + s.lists[k]][k := s.lists[k]] == s.lists;
    }
  }

  lemma EnlistUnlistHead(s: State, b: int)
    requires b in s.blk
    requires var k := UnitClass(s.blk[b].units); k < |s.lists| && |s.lists[k]| > 0 && s.lists[k][0] == b
    ensures Enlist(Unlist(s, b), b) == s
  {
    var k := UnitClass(s.blk[b].units);
    assert [b] + s.lists[k][1..] == s.lists[k];
    assert s.lists[k := s.lists[k][1..]][k := s.lists[k]] == s.lists;
  }

  lemma AbsorbSplit(s: State, b: int, units: nat)
    requires Tiling(s) && b in s.blk && b != s.end && 3 <= units && units + 4 <= s.blk[b].units
    requires s.blk[b].free && Next(s, b) in s.blk && s.blk[Next(s, b)].prevFree
    ensures var t := Split(s, b, units);
      && Rest(b, units) !in s.blk && b in t.blk && Next(t, b) == Rest(b, units)
      && Rest(b, units) in t.blk && Absorb(t, b) == s
  {
    TilingSplit(s, b, units);
    var t := Split(s, b, units);
    assert Absorb(t, b).blk == s.blk;
  }

  /** Marking a prepared block free again gives the trimmed block, which merges back. */
  lemma PrepareUndone(s: State, b: int, units: nat)
    requires Mid(s, {b}) && b in s.blk && b != s.end && s.blk[b].free && units >= 3
    requires NotTwoFree(s, b)
    ensures Next(s, b) in s.blk
    ensures var t := PrepareUsed(s, b, units);
      var v := TrimFree(s, b, units);
      && b in t.blk && Next(t, b) in t.blk && Mark(t, b, true) == v
      && b in v.blk && Next(v, b) in v.blk && MergeNext(v, b) == s
  {
    assert BlockOk(s, b) && FlagOk(s, b);
    var t := PrepareUsed(s, b, units);
    var v := TrimFree(s, b, units);
    if CanSplit(s.blk[b].units, units) {
      TilingSplit(s, b, units);
      AbsorbSplit(s, b, units);
      UnlistEnlist(Split(s, b, units), Rest(b, units));
    }
    assert Mark(t, b, true).blk == v.blk;
  }

  /** A free block of a coalesced heap does not follow a free block. */
  lemma NotPrevFree(s: State, b: int)
    requires Inv(s) && b in s.blk && b != s.end && s.blk[b].free
    ensures !s.blk[b].prevFree
  {
    if b != FIRST {
      var p := Predecessor(s, b);
      assert FlagOk(s, p) && NotTwoFree(s, p);
    }
  }

  lemma PrevIs(s: State, p: int, b: int)
    requires Tiling(s) && b in s.blk && b != FIRST && p in s.blk && p != s.end && Next(s, p) == b
    ensures Prev(s, b) == p
  {
    var q := Predecessor(s, b);
  }

  lemma RemoveSecond(list: seq<int>, r: int, b: int)
    requires r != b
    ensures RemoveValue([r] + ([b] + list), b) == [r] + list
  {
    var all := [r] + ([b] + list);
    assert all[1..] == [b] + list;
    assert ([b] + list)[1..] == list;
  }

  /** Taking out the block enlisted before another leaves the other. */
  lemma UnlistUnder(s: State, b: int, r: int)
    requires b in s.blk && r in s.blk && b != r
    ensures Unlist(Enlist(Enlist(s, b), r), b) == Enlist(s, r)
  {
    var k, j := UnitClass(s.blk[b].units), UnitClass(s.blk[r].units);
    var l := s.lists;
    if k < |l| {
      if j == k {
        RemoveSecond(l[k], r, b);
        assert l[k := [b] + l[k]][k := [r] + ([b] + l[k])][k := [r] + l[k]] == l[k := [r] + l[k]];
      } else if j < |l| {
        assert RemoveValue([b] + l[k], b) == l[k];
        assert l[k := [b] + l[k]][j := [r] + l[j]][k := l[k]] == l[j := [r] + l[j]];
      } else {
        UnlistEnlist(s, b);
      }
    }
  }

  /** Splitting a block twice and joining the first two parts again. */
  lemma AbsorbFirstOfThree(u: State, b: int, gap: nat, units: nat)
    requires Tiling(u) && b in u.blk && b != u.end && u.blk[b].free && Next(u, b) in u.blk && u.blk[Next(u, b)].prevFree
    requires gap >= 4 && CanSplit(u.blk[b].units, gap) && units >= 3 && CanSplit(u.blk[b].units - gap, units)
    ensures var x := Split(u, b, gap - 1);
      var c := b + gap;
      && c in x.blk && Next(x, c) in x.blk && x.blk[c].units == u.blk[b].units - gap
      && var y := Split(x, c, units);
      && b in y.blk && Next(y, b) == c && c in y.blk && Rest(c, units) in y.blk && Rest(c, units) != b
      && var z := Absorb(y, b);
      && b in z.blk && Next(z, b) == Rest(c, units) && Rest(c, units) in z.blk
      && y.blk[Rest(c, units)] == z.blk[Rest(c, units)]
      && Absorb(z, b) == u
  {
    TilingSplit(u, b, gap - 1);
    var x, c := Split(u, b, gap - 1), b + gap;
    TilingSplit(x, c, units);
    var z := Absorb(Split(x, c, units), b);
    assert Absorb(z, b).blk == u.blk;
  }

  /** Merging block c of v, whose free predecessor is b, with both neighbours gives u. */
  ghost predicate RejoinsTo(v: State, b: int, c: int, u: State) {
    && b in v.blk && Next(v, b) == c && c in v.blk && v.blk[c].prevFree
    && var w := Absorb(Unlist(v, b), b);
    Next(w, b) in w.blk && MergeNext(w, b) == u
  }

  /** The block in front of the aligned block, absorbed again, gives back the original: the
      same result whether the tail was returned to the pool or not. */
  lemma LeadingUndone(u: State, b: int, gap: nat, units: nat)
    requires Tiling(u) && b in u.blk && b != u.end && u.blk[b].free && Next(u, b) in u.blk
    requires u.blk[Next(u, b)].prevFree && !u.blk[Next(u, b)].free
    requires gap >= 4 && CanSplit(u.blk[b].units, gap) && units >= 3
    ensures var x := Split(u, b, gap - 1);
      && b in x.blk && b + gap in x.blk && Next(x, b + gap) in x.blk && Next(x, b + gap) == Next(u, b)
      && RejoinsTo(TrimFree(Enlist(x, b), b + gap, units), b, b + gap, u)
  {
    var x, c := Split(u, b, gap - 1), b + gap;
    AbsorbSplit(u, b, gap - 1);
    if CanSplit(x.blk[c].units, units) {
      AbsorbFirstOfThree(u, b, gap, units);
      LeadingUndoneTwice(x, b, c, units);
    } else {
      UnlistEnlist(x, b);
    }
  }

  lemma LeadingUndoneTwice(x: State, b: int, c: int, units: nat)
    requires b in x.blk && c in x.blk && b != c && Next(x, c) in x.blk && Next(x, c) != b && units < x.blk[c].units
    requires Next(x, b) == c && Rest(c, units) !in x.blk && x.blk[c].prevFree && Next(x, c) != c
    ensures var y := Split(x, c, units);
      && b in y.blk && Next(y, b) == c
      && Next(Absorb(y, b), b) == Rest(c, units)
      && RejoinsTo(Enlist(Split(Enlist(x, b), c, units), Rest(c, units)), b, c, Absorb(Absorb(y, b), b))
  {
    var y, r := Split(x, c, units), Rest(c, units);
    assert Split(Enlist(x, b), c, units) == Enlist(y, b);
    UnlistUnder(y, b, r);
    AbsorbEnlist(y, b, r);
    UnlistEnlist(Absorb(y, b), r);
  }

  lemma AbsorbEnlist(s: State, b: int, r: int)
    requires b in s.blk && r in s.blk && r != b && Next(s, b) in s.blk && Next(s, b) != r
    ensures Absorb(Enlist(s, r), b) == Enlist(Absorb(s, b), r)
  {
  }

  /** The first part of free, when the predecessor of the freed block is known. */
  lemma FreeHeadIs(t: State, c: int, b: int)
    requires Inv(t) && c in t.blk && c != t.end && !t.blk[c].free && Next(t, c) in t.blk
    requires var v := Mark(t, c, true);
      v.blk[c].prevFree && c != FIRST && b in v.blk && b != v.end && Next(v, b) == c
    ensures var v := Mark(t, c, true); FreeHead(t, c) == (Absorb(Unlist(v, b), b), b)
  {
    FreeMarks(t, c);
    PrevIs(Mark(t, c, true), b, c);
  }

  lemma FreeHeadStays(t: State, c: int)
    requires Inv(t) && c in t.blk && c != t.end && !t.blk[c].free && Next(t, c) in t.blk && !t.blk[c].prevFree
    ensures FreeHead(t, c) == (Mark(t, c, true), c)
  {
    FreeMarks(t, c);
    assert BlockOk(t, c);
  }

  /** Placing a request in a free block, with or without a gap in front, and freeing it. */
  lemma PlacementRestored(s: State, b: int, gap: nat, units: nat)
    requires Inv(s) && b in s.blk && b != s.end && s.blk[b].free && (gap == 0 || gap >= 4) && units >= 3
    ensures Tiling(Unlist(s, b)) && Next(s, b) in s.blk
    ensures var u := Unlist(s, b);
      var (p, c) := TrimLeading(u, b, gap);
      && Tiling(p) && c in p.blk && c != p.end
      && var t := PrepareUsed(p, c, units);
      Inv(t) && c in t.blk && c != t.end && !t.blk[c].free ==>
        var (w, d) := FreeHead(t, c);
        d == b && MergeNext(w, d) == u
  {
    hide Listed, PrepareUsed, FreeHead, MergeNext, Mid;
    MidUnlist(s, b, {});
    assert {} + {b} == {b};
    var u := Unlist(s, b);
    assert BlockOk(s, b) && FlagOk(s, b) && NotTwoFree(s, b);
    CoalescedSameBlocks(s, u);
    TrimLeadingMid(u, b, gap);
    var (p, c) := TrimLeading(u, b, gap);
    PrepareUndone(p, c, units);
    var t := PrepareUsed(p, c, units);
    if Inv(t) && c in t.blk && c != t.end && !t.blk[c].free {
      if gap > 0 && CanSplit(u.blk[b].units, gap) {
        LeadingUndone(u, b, gap, units);
        assert c == b + gap;
        FreeHeadIs(t, c, b);
      } else {
        NotPrevFree(s, b);
        FreeHeadStays(t, c);
      }
    }
  }

  /** Freeing what malloc has just returned restores the heap exactly: the same blocks, and
      the same lists in the same order, whether or not the block was split. */
  lemma FreeUndoesMalloc(s: State, size: nat)
    requires Inv(s) && size < WORD_LIMIT && Malloc(s, size).1 != NULL_BLOCK
    ensures var (t, b) := Malloc(s, size);
      Inv(t) && b in t.blk && b != t.end && !t.blk[b].free && Free(t, b) == s
  {
    MallocKeepsInv(s, size);
    AdjustRequest(size);
    var adjust := AdjustRequestSize(size, ALIGN_SIZE);
    var b := Locate(s, adjust);
    LocateFound(s, adjust);
    PlacementRestored(s, b, 0, adjust / 8);
    EnlistUnlistHead(s, b);
  }

  /** Freeing what memalign has just returned restores the heap exactly, whatever was split
      off in front and behind. */
  lemma FreeUndoesMemalign(s: State, base: nat, align: nat, size: nat)
    requires Inv(s) && size < WORD_LIMIT && PowerOfTwo(align) && base % 8 == 0
    requires Memalign(s, base, align, size).1 != NULL_BLOCK
    ensures var (t, c) := Memalign(s, base, align, size);
      Inv(t) && c in t.blk && c != t.end && !t.blk[c].free && Free(t, c) == s
  {
    MemalignKeepsInv(s, base, align, size);
    MemalignSearch(align, size);
    var m, units := MemalignSize(align, size), AdjustRequestSize(size, ALIGN_SIZE) / 8;
    var b := Locate(s, m);
    LocateFound(s, m);
    MemalignHeadOk(s, base, align, size);
    var u := Unlist(s, b);
    var gap := AlignGap(PayloadAddress(base, b), align) / 8;
    PlacementRestored(s, b, gap, units);
    EnlistUnlistHead(s, b);
  }

  // ---------------------------------------------------------------- runs

  function EmptyLists(): (r: seq<seq<int>>)
    ensures |r| == CLASS_COUNT && forall k :: 0 <= k < |r| ==> r[k] == []
  {
    seq(CLASS_COUNT, k => [])
  }

  /** The heap just after a pool of `units` units has been added: one free block. */
  ghost function Fresh(units: nat): State
    requires 3 <= units < UNITS_MAX
  {
    var end := FIRST + 1 + units;
    var k := UnitClass(units);
    ClassBySizeInTable(8 * units);
    State(end, map[FIRST := Blk(units, true, false), end := Blk(0, false, true)], EmptyLists()[k := [FIRST]])
  }

  /** The heap before any pool has been added. */
  ghost function NoPool(): State {
    State(FIRST, map[], EmptyLists())
  }

  lemma NoPoolInv()
    ensures Inv(NoPool())
  {
    var s := NoPool();
    forall k | 0 <= k < |s.lists| ensures ListOk(s, k, {}) { }
  }

  lemma FreshInv(units: nat)
    requires 3 <= units < UNITS_MAX
    ensures Inv(Fresh(units))
  {
    var s := Fresh(units);
    ClassBySizeInTable(8 * units);
    forall b | b in s.blk ensures BlockOk(s, b) && FlagOk(s, b) && NotTwoFree(s, b) && OnList(s, b, {}) { }
    forall b, c | b in s.blk && c in s.blk ensures Ordered(s, b, c) { }
    forall k | 0 <= k < |s.lists| ensures ListOk(s, k, {}) { }
  }

  /** What a call leaves: a heap, or memory that represents none any more. */
  datatype Outcome = Sound(heap: State) | Spoilt

  /** tlsf_realloc of a null or live pointer to any size. */
  ghost function ReallocAny(s: State, b: int, size: nat): (Outcome, int)
    requires Inv(s) && (b == NULL_BLOCK || Live(s, b)) && size < WORD_LIMIT
  {
    if b == NULL_BLOCK then (Sound(Malloc(s, size).0), Malloc(s, size).1)
    else if size == 0 then (Sound(Free(s, b)), NULL_BLOCK)
    else if Spoils(s, b, size) then (Spoilt, b)
    else (Sound(Realloc(s, b, size).0), Realloc(s, b, size).1)
  }

  /** The sizes that spoil the heap. */
  predicate SpoilingSize(size: nat) {
    BLOCK_SIZE_MAX - 8 < size <= MAX_UNWRAPPED
  }

  /** The heap is lost exactly when a block above 24 bytes is resized to a size malloc refuses. Otherwise
      the heap invariant is kept, and what is returned holds the adjusted size. */
  lemma ReallocAnyKeepsInv(s: State, b: int, size: nat)
    requires Inv(s) && (b == NULL_BLOCK || Live(s, b)) && size < WORD_LIMIT
    ensures var (o, c) := ReallocAny(s, b, size);
      && (o.Spoilt? <==> b != NULL_BLOCK && 8 * s.blk[b].units > BLOCK_SIZE_MIN && SpoilingSize(size))
      && (o.Sound? ==> Inv(o.heap) && o.heap.end == s.end)
      && (o.Sound? && c != NULL_BLOCK ==>
            Live(o.heap, c) && 8 * o.heap.blk[c].units >= AdjustRequestSize(size, ALIGN_SIZE))
      && (o.Sound? && c == NULL_BLOCK && size != 0 ==> o.heap == s)
  {
    if b == NULL_BLOCK {
      MallocKeepsInv(s, size);
    } else if size == 0 {
      FreeKeepsInv(s, b);
    } else {
      ReallocServesIff(s, b, size);
      if !Spoils(s, b, size) { ReallocKeepsInv(s, b, size); }
    }
  }

  /** Every other used block, and the sentinel, stays where and as it was, and is not what is returned. */
  lemma ReallocAnyKeepsOthers(s: State, b: int, size: nat, x: int)
    requires Inv(s) && (b == NULL_BLOCK || Live(s, b)) && size < WORD_LIMIT
    requires x in s.blk && !s.blk[x].free && x != b
    ensures var (o, c) := ReallocAny(s, b, size); (o.Sound? ==> Survives(s, o.heap, x)) && x != c
  {
    assert BlockOk(s, x);
    if b == NULL_BLOCK {
      MallocKeepsOthers(s, size, x);
    } else if size == 0 {
      FreeKeepsOthers(s, b, x);
    } else if !Spoils(s, b, size) {
      ReallocKeepsOthers(s, b, size, x);
    }
  }

  /** A call to the allocator; blocks stand for the pointers to their payloads. */
  datatype Op =
    | MallocOp(size: nat)
    | MemalignOp(align: nat, size: nat)
    | ReallocOp(block: int, size: nat)
    | FreeOp(block: int)

  /** Pointers are null or live, alignments powers of two, sizes 64 bits wide. */
  ghost predicate Legal(s: State, op: Op) {
    match op
    case MallocOp(size) => size < WORD_LIMIT
    case MemalignOp(align, size) => PowerOfTwo(align) && size < WORD_LIMIT
    case ReallocOp(b, size) => size < WORD_LIMIT && (b == NULL_BLOCK || Live(s, b))
    case FreeOp(b) => b == NULL_BLOCK || Live(s, b)
  }

  ghost function Apply(s: State, base: nat, op: Op): Outcome
    requires Inv(s) && base % 8 == 0 && Legal(s, op)
  {
    match op
    case MallocOp(size) => Sound(Malloc(s, size).0)
    case MemalignOp(align, size) => Sound(Memalign(s, base, align, size).0)
    case ReallocOp(b, size) => ReallocAny(s, b, size).0
    case FreeOp(b) => Sound(if b == NULL_BLOCK then s else Free(s, b))
  }

  /** The call resizes a block above 24 bytes to a size malloc refuses. */
  ghost predicate SpoilingCall(s: State, op: Op) {
    match op
    case ReallocOp(b, size) => Live(s, b) && 8 * s.blk[b].units > BLOCK_SIZE_MIN && SpoilingSize(size)
    case _ => false
  }

  lemma ApplyKeepsInv(s: State, base: nat, op: Op)
    requires Inv(s) && base % 8 == 0 && Legal(s, op)
    ensures var o := Apply(s, base, op);
      && (o.Spoilt? <==> SpoilingCall(s, op))
      && (o.Sound? ==> Inv(o.heap) && o.heap.end == s.end)
  {
    match op
    case MallocOp(size) => MallocKeepsInv(s, size);
    case MemalignOp(align, size) => MemalignKeepsInv(s, base, align, size);
    case ReallocOp(b, size) =>
      assert b in s.blk ==> BlockOk(s, b);
      ReallocAnyKeepsInv(s, b, size);
    case FreeOp(b) => if b != NULL_BLOCK { FreeKeepsInv(s, b); }
  }

  /** The call is given block x to resize or free. */
  predicate Targets(op: Op, x: int) {
    match op
    case ReallocOp(b, _) => b == x
    case FreeOp(b) => b == x
    case _ => false
  }

  /** A call that leaves a heap leaves every used block it is not given, and the sentinel, where and as
      it was. */
  lemma ApplyKeepsOthers(s: State, base: nat, op: Op, x: int)
    requires Inv(s) && base % 8 == 0 && Legal(s, op) && x in s.blk && !s.blk[x].free && !Targets(op, x)
    ensures Apply(s, base, op).Sound? ==> Survives(s, Apply(s, base, op).heap, x)
  {
    match op
    case MallocOp(size) => MallocKeepsOthers(s, size, x);
    case MemalignOp(align, size) => MemalignKeepsOthers(s, base, align, size, x);
    case ReallocOp(b, size) => ReallocAnyKeepsOthers(s, b, size, x);
    case FreeOp(b) => if b != NULL_BLOCK { FreeKeepsOthers(s, b, x); }
  }

  /** `states` is a run of legal calls from its first state. */
  ghost predicate IsRun(base: nat, states: seq<Outcome>, ops: seq<Op>)
    requires base % 8 == 0
  {
    && |states| == |ops| + 1
    && forall i :: 0 <= i < |ops| ==> RunStep(base, states[i], ops[i], states[i + 1])
  }

  /** Once the heap is lost, calls may do anything, and it stays lost. */
  ghost predicate RunStep(base: nat, s: Outcome, op: Op, t: Outcome)
    requires base % 8 == 0
  {
    match s
    case Sound(heap) => Inv(heap) ==> Legal(heap, op) && t == Apply(heap, base, op)
    case Spoilt => t == Spoilt
  }

  /** Some call before the i-th state spoils the heap. */
  ghost predicate SpoiltBefore(states: seq<Outcome>, ops: seq<Op>, i: nat)
    requires i <= |ops| <= |states|
  {
    exists j :: 0 <= j < i && states[j].Sound? && SpoilingCall(states[j].heap, ops[j])
  }

  /** Over every run from a fresh pool the heap is lost exactly when some call spoiled it; until then the
      heap invariant holds and the pool keeps its size. */
  lemma {:induction false} RunKeepsInv(base: nat, units: nat, states: seq<Outcome>, ops: seq<Op>, i: nat)
    requires base % 8 == 0 && 3 <= units < UNITS_MAX
    requires IsRun(base, states, ops) && states[0] == Sound(Fresh(units)) && i < |states|
    ensures states[i].Spoilt? <==> SpoiltBefore(states, ops, i)
    ensures states[i].Sound? ==>
      var s := states[i].heap; Inv(s) && s.end == FIRST + 1 + units && s.blk != map[]
  {
    if i == 0 {
      FreshInv(units);
    } else {
      RunKeepsInv(base, units, states, ops, i - 1);
      assert RunStep(base, states[i - 1], ops[i - 1], states[i]);
      if states[i - 1].Sound? {
        var s := states[i - 1].heap;
        ApplyKeepsInv(s, base, ops[i - 1]);
        assert BlockOk(s, s.end);
        ApplyKeepsOthers(s, base, ops[i - 1], s.end);
      }
    }
  }

  // ---------------------------------------------------------------- when requests are met

  /** A block malloc returns holds the request exactly when rounding the request up by 7 does
      not wrap a 64-bit size. */
  lemma MallocServesIff(s: State, size: nat)
    requires Inv(s) && size < WORD_LIMIT && Malloc(s, size).1 != NULL_BLOCK
    ensures var (t, b) := Malloc(s, size);
      Live(t, b) && (8 * t.blk[b].units >= size <==> size <= MAX_UNWRAPPED)
  {
    AdjustRequest(size);
    MallocKeepsInv(s, size);
    var (t, b) := Malloc(s, size);
    ClassFits(t, b);
  }

  /** The only block of a new pool of 24 bytes serves any request that adjusts to 24. */
  lemma SmallestServed()
    ensures Inv(Fresh(3)) && Locate(Fresh(3), 24) == FIRST
  {
    var s := Fresh(3);
    FreshInv(3);
    SufficientFromBounds(24, 0);
    ClassFromBounds(24, 0);
    assert Lo(3) == 24 && Lo(4) == 32;
    LocateFails(s, 24);
    assert UnitClass(s.blk[FIRST].units) >= FirstSufficient(24);
    LocateFound(s, 24);
  }

  /** A request of 2^64 - 1 bytes gets the 24 bytes of such a pool. */
  lemma MallocTooSmall()
    ensures Inv(Fresh(3))
    ensures var (t, b) := Malloc(Fresh(3), 0xffff_ffff_ffff_ffff);
      b == FIRST && Live(t, b) && 8 * t.blk[b].units < 0xffff_ffff_ffff_ffff
  {
    SmallestServed();
    AdjustRequest(0xffff_ffff_ffff_ffff);
    MallocServesIff(Fresh(3), 0xffff_ffff_ffff_ffff);
  }

  /** A request at alignment 2^63 gets a block of such a pool, wherever it lies below 2^62. */
  lemma MemalignUnaligned(base: nat)
    requires base % 8 == 0 && base < 0x4000_0000_0000_0000
    ensures Inv(Fresh(3)) && PowerOfTwo(0x8000_0000_0000_0000)
    ensures var (t, c) := Memalign(Fresh(3), base, 0x8000_0000_0000_0000, 1);
      c == FIRST && Live(t, c) && PayloadAddress(base, c) % 0x8000_0000_0000_0000 != 0
  {
    var align, s := 0x8000_0000_0000_0000, Fresh(3);
    SmallestServed();
    Pow2Values();
    assert Pow2(63) == align;
    AdjustRequest(1);
    MemalignSizeExact(align, 1);
    MemalignHeadOk(s, base, align, 1);
    MemalignAlignedIff(s, base, align, 1);
  }

  /** What memalign returns is aligned exactly when the alignment is not 2^63, for which the
      rounding of the search size wraps; otherwise it holds the request exactly when rounding the
      request up by 7 does not wrap. */
  lemma MemalignAlignedIff(s: State, base: nat, align: nat, size: nat)
    requires Inv(s) && size < WORD_LIMIT && PowerOfTwo(align) && base % 8 == 0
    requires base + 8 * (s.end + 2) < 0x8000_0000_0000_0000
    requires Memalign(s, base, align, size).1 != NULL_BLOCK
    ensures var (t, c) := Memalign(s, base, align, size);
      && Live(t, c) && PayloadAddress(base, c) > 0
      && (PayloadAddress(base, c) % align == 0 <==> align != 0x8000_0000_0000_0000)
      && (align != 0x8000_0000_0000_0000 ==> (8 * t.blk[c].units >= size <==> size <= MAX_UNWRAPPED))
  {
    hide PowerOfTwo, PrepareUsed, MemalignHead, AlignGap;
    MemalignKeepsInv(s, base, align, size);
    AdjustRequest(size);
    PowerOfTwoCases(align);
    var (t, c) := Memalign(s, base, align, size);
    assert BlockOk(t, c);
    ClassFits(t, c);
    if align < 0x8000_0000_0000_0000 { MemalignServes(s, base, align, size); }
  }

  /** What realloc returns for a live block holds the request exactly when the size is at most
      2^32 - 8. Above that the block stays where it is, too small; in the range where malloc refuses,
      a block of 32 bytes or more spoils the heap. */
  lemma ReallocServesIff(s: State, b: int, size: nat)
    requires Inv(s) && Live(s, b) && 0 < size < WORD_LIMIT
    ensures Spoils(s, b, size) <==> BLOCK_SIZE_MAX - 8 < size <= MAX_UNWRAPPED && 8 * s.blk[b].units > BLOCK_SIZE_MIN
    ensures !Spoils(s, b, size) ==>
      var (t, c) := Realloc(s, b, size);
      && (c != NULL_BLOCK ==> Live(t, c) && (8 * t.blk[c].units >= size <==> size <= BLOCK_SIZE_MAX - 8))
      && (size > BLOCK_SIZE_MAX - 8 ==> c == b)
  {
    AdjustRequest(size);
    ClassFits(s, b);
    assert BlockOk(s, b);
    if !Spoils(s, b, size) {
      ReallocKeepsInv(s, b, size);
      var (t, c) := Realloc(s, b, size);
      if c != NULL_BLOCK { ClassFits(t, c); }
    }
  }

  /** A heap and a size that spoil: the one block of a new pool of 32 bytes, once allocated, and the
      least size malloc refuses. */
  lemma ReallocSpoils()
    ensures Inv(Fresh(4))
    ensures var (s, b) := Malloc(Fresh(4), 32);
      b == FIRST && Inv(s) && Live(s, b) && s.blk[b].units == 4 && Spoils(s, b, 0xffff_fff9)
  {
    var u := Fresh(4);
    FreshInv(4);
    AdjustRequest(32);
    AdjustRequest(0xffff_fff9);
    SufficientFromBounds(32, 0);
    ClassFromBounds(32, 0);
    assert Lo(4) == 32 && Lo(5) == 40;
    LocateFails(u, 32);
    assert UnitClass(u.blk[FIRST].units) >= FirstSufficient(32);
    LocateFound(u, 32);
    MallocKeepsInv(u, 32);
  }

  // ---------------------------------------------------------------- payloads

  /** Payloads of different live blocks share no word, and lie inside the pool. */
  lemma PayloadsDisjoint(s: State, b: int, c: int, w: int)
    requires Inv(s) && InPayload(s, b, w)
    ensures FIRST + 2 <= w <= s.end
    ensures InPayload(s, c, w) ==> b == c
  {
    assert BlockOk(s, b);
    if c in s.blk { assert Ordered(s, b, c) && Ordered(s, c, b); }
  }

  // ---------------------------------------------------------------- conservation

  /** Sum of size + 8 over the blocks from b up to the sentinel. */
  ghost function TotalFrom(s: State, b: int): nat
    requires Tiling(s) && b in s.blk
    decreases s.end - b
  {
    assert BlockOk(s, b);
    if b == s.end then 0
    else
      assert BlockOk(s, Next(s, b));
      8 * s.blk[b].units + 8 + TotalFrom(s, Next(s, b))
  }

  /** The blocks met when walking the pool from b. */
  ghost function WalkFrom(s: State, b: int): seq<int>
    requires Tiling(s) && b in s.blk
    decreases s.end - b
  {
    assert BlockOk(s, b);
    if b == s.end then [b]
    else
      assert BlockOk(s, Next(s, b));
      [b] + WalkFrom(s, Next(s, b))
  }

  /** The walk meets every block of the pool. */
  lemma {:induction false} WalkMeetsAll(s: State, b: int, c: int)
    requires Tiling(s) && b in s.blk && c in s.blk && b <= c
    ensures c in WalkFrom(s, b)
    decreases s.end - b
  {
    assert BlockOk(s, b) && BlockOk(s, c);
    if b != c {
      assert Ordered(s, b, c);
      assert BlockOk(s, Next(s, b));
      WalkMeetsAll(s, Next(s, b), c);
    }
  }

  lemma {:induction false} TotalFromIs(s: State, b: int)
    requires Tiling(s) && b in s.blk
    ensures TotalFrom(s, b) == 8 * (s.end - b)
    decreases s.end - b
  {
    assert BlockOk(s, b);
    if b != s.end {
      assert BlockOk(s, Next(s, b));
      TotalFromIs(s, Next(s, b));
    }
  }

  /** Over a whole run the sum of (size + 8) over the blocks of the pool, all of which the
      walk meets, stays the pool's bytes plus 8. */
  lemma Conservation(base: nat, units: nat, states: seq<Outcome>, ops: seq<Op>, i: nat)
    requires base % 8 == 0 && 3 <= units < UNITS_MAX
    requires IsRun(base, states, ops) && states[0] == Sound(Fresh(units)) && i < |states|
    ensures states[i].Spoilt? <==> SpoiltBefore(states, ops, i)
    ensures states[i].Sound? ==>
      var s := states[i].heap;
      && Inv(s) && FIRST in s.blk && TotalFrom(s, FIRST) == 8 * units + 8
      && forall b :: b in s.blk ==> b in WalkFrom(s, FIRST)
  {
    RunKeepsInv(base, units, states, ops, i);
    if states[i].Sound? {
      var s := states[i].heap;
      TotalFromIs(s, FIRST);
      forall b | b in s.blk ensures b in WalkFrom(s, FIRST) {
        assert BlockOk(s, b);
        WalkMeetsAll(s, FIRST, b);
      }
    }
  }

  /** With nothing allocated, the heap is again exactly the fresh heap: one free block
      followed by the sentinel, on the one list of its class. */
  lemma FullReclaim(s: State)
    requires Inv(s) && s.blk != map[] && forall b :: !Live(s, b)
    ensures 3 <= s.end - FIRST - 1 < UNITS_MAX && s == Fresh(s.end - FIRST - 1)
  {
    var units := s.end - FIRST - 1;
    assert BlockOk(s, FIRST) && BlockOk(s, s.end) && !Live(s, FIRST);
    var n := Next(s, FIRST);
    assert NotTwoFree(s, FIRST) && FlagOk(s, FIRST) && !Live(s, n);
    assert n == s.end;
    forall b | b in s.blk ensures b == FIRST || b == s.end {
      assert BlockOk(s, b) && Ordered(s, FIRST, b);
    }
    var t := Fresh(units);
    assert s.blk.Keys == {FIRST, s.end};
    assert s.blk == t.blk;
    ReclaimedLists(s);
  }

  lemma NoDupFirstTwo(l: seq<int>)
    requires NoDup(l) && |l| > 1
    ensures l[0] != l[1]
  {
  }

  lemma ReclaimedLists(s: State)
    requires Inv(s) && FIRST in s.blk && s.blk[FIRST].free
    requires forall b :: b in s.blk ==> b == FIRST || !s.blk[b].free
    ensures UnitClass(s.blk[FIRST].units) < CLASS_COUNT
    ensures s.lists == EmptyLists()[UnitClass(s.blk[FIRST].units) := [FIRST]]
  {
    var c := UnitClass(s.blk[FIRST].units);
    ClassFits(s, FIRST);
    assert OnList(s, FIRST, {});
    var want := EmptyLists()[c := [FIRST]];
    forall k | 0 <= k < CLASS_COUNT ensures s.lists[k] == want[k] {
      var l := s.lists[k];
      assert ListOk(s, k, {});
      forall b | b in l ensures b == FIRST && k == c { assert MemberOk(s, k, b, {}); }
      assert l != [] ==> l[0] in l;
      if |l| > 1 {
        assert l[1] in l;
        NoDupFirstTwo(l);
      }
      assert k == c ==> FIRST in l;
      assert l == if k == c then [FIRST] else [];
    }
  }
}
