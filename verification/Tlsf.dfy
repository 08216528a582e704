/** The allocator over its memory: header words, list links, list heads and bitmaps are
    updated in place, as the C code does. Word w of `mem` is the 8-byte word at address
    base + 8 * w; the control structure starts at `base` with its null block. Each method
    is proved to carry out its function on the abstract heap. */
module Tlsf {
  import opened Bits
  import opened Bytes
  import opened Mapping
  import opened FreeList
  import opened Blocks
  import opened HeapSpec
  import opened HeapTheorems
  import opened Memory
  import opened Bitmap
  import opened Steps
  import opened Refused
  import opened Setup
  import opened Checking

  class Heap {
    const base: nat
    const mem: array<Word>
    var flBitmap: nat
    const slBitmap: array<nat>
    const blocks: array<int>
    ghost var st: State

    /** The concrete state represents `st`, with the blocks in `loose` free but on no list. */
    ghost predicate Ready(loose: set<int>)
      reads this, mem, slBitmap, blocks
    {
      && base % 8 == 0 && 0 < base && base + 8 * mem.Length <= 0x4000_0000_0000_0000
      && Tiling(st) && Listed(st, loose)
      && Mirrors(mem[..], blocks[..], st)
      && Bitmapped(flBitmap, slBitmap[..], st.lists)
    }

    /** The invariant between calls. */
    ghost predicate Valid()
      reads this, mem, slBitmap, blocks
    {
      Ready({}) && Inv(st)
    }

    // -------------------------------------------------------------- set-up

    /** tlsf_create on an aligned buffer: control_construct clears the bitmaps and points
        every list at the null block. What the buffer held before does not matter. */
    constructor (base: nat, mem: array<Word>)
      requires base % 8 == 0 && 0 < base && base + 8 * mem.Length <= 0x4000_0000_0000_0000
      requires FIRST + 1 < mem.Length < 0x1000_0000_0000
      modifies mem
      ensures this.base == base && this.mem == mem && fresh(slBitmap) && fresh(blocks)
      ensures Valid() && st == NoPool()
    {
      this.base, this.mem, flBitmap := base, mem, 0;
      slBitmap, blocks := new nat[FL_INDEX_COUNT], new int[CLASS_COUNT];
      st := NoPool();
      new;
      mem[NULL_BLOCK + 2] := NULL_BLOCK;
      mem[NULL_BLOCK + 3] := NULL_BLOCK;
      var i := 0;
      while i < FL_INDEX_COUNT
        invariant 0 <= i <= FL_INDEX_COUNT && flBitmap == 0 && st == NoPool()
        invariant forall f :: 0 <= f < i ==> slBitmap[f] == 0
        invariant forall k :: 0 <= k < SL_INDEX_COUNT * i ==> blocks[k] == NULL_BLOCK
      {
        slBitmap[i] := 0;
        var j := 0;
        while j < SL_INDEX_COUNT
          invariant 0 <= j <= SL_INDEX_COUNT && flBitmap == 0 && st == NoPool()
          invariant forall f :: 0 <= f <= i ==> slBitmap[f] == 0
          invariant forall k :: 0 <= k < SL_INDEX_COUNT * i + j ==> blocks[k] == NULL_BLOCK
        {
          blocks[SL_INDEX_COUNT * i + j] := NULL_BLOCK;
          j := j + 1;
        }
        i := i + 1;
      }
      NoPoolMirrors(mem[..], blocks[..], flBitmap, slBitmap[..]);
    }

    // -------------------------------------------------------------- header words

    method BlockSize(b: int) returns (size: Word)
      requires 0 <= b && b + 1 < mem.Length
      ensures size == SizeOf(mem[b + 1])
    {
      SizeBitwise(mem[b + 1]);
      size := And(mem[b + 1], Not(64, Or(1, 2)));
    }

    method BlockIsFree(b: int) returns (free: bool)
      requires 0 <= b && b + 1 < mem.Length
      ensures free == FreeBit(mem[b + 1])
    {
      FlagsBitwise(mem[b + 1]);
      free := And(mem[b + 1], 1) != 0;
    }

    method BlockIsPrevFree(b: int) returns (prevFree: bool)
      requires 0 <= b && b + 1 < mem.Length
      ensures prevFree == PrevFreeBit(mem[b + 1])
    {
      FlagsBitwise(mem[b + 1]);
      prevFree := And(mem[b + 1], 2) != 0;
    }

    method BlockSetSize(b: int, size: Word)
      requires 0 <= b && b + 1 < mem.Length && size % 4 == 0 && size < 0x1_0000_0000
      modifies mem
      ensures mem[..] == old(mem[..])[b + 1 := WithSize(old(mem[b + 1]), size)]
    {
      SetSizeBitwise(mem[b + 1], size);
      mem[b + 1] := Or(size, And(mem[b + 1], Or(1, 2)));
    }

    method BlockSetFree(b: int, free: bool)
      requires 0 <= b && b + 1 < mem.Length
      modifies mem
      ensures mem[..] == old(mem[..])[b + 1 := WithFree(old(mem[b + 1]), free)]
    {
      SetFreeBitwise(mem[b + 1]);
      mem[b + 1] := if free then Or(mem[b + 1], 1) else And(mem[b + 1], Not(64, 1));
    }

    method BlockSetPrevFree(b: int, prevFree: bool)
      requires 0 <= b && b + 1 < mem.Length
      modifies mem
      ensures mem[..] == old(mem[..])[b + 1 := WithPrevFree(old(mem[b + 1]), prevFree)]
    {
      SetPrevFreeBitwise(mem[b + 1]);
      mem[b + 1] := if prevFree then Or(mem[b + 1], 2) else And(mem[b + 1], Not(64, 2));
    }

    /** block_next */
    method BlockNext(b: int) returns (n: int)
      requires 0 <= b && b + 1 < mem.Length
      ensures n == b + 1 + SizeOf(mem[b + 1]) / 8
    {
      var size := BlockSize(b);
      n := OffsetToBlock(b + 2, size as int - 8);
    }

    static function OffsetToBlock(w: int, bytes: int): int {
      w + bytes / 8
    }

    /** block_link_next */
    method BlockLinkNext(b: int) returns (n: int)
      requires 0 <= b && b + 1 < mem.Length && b + 1 + SizeOf(mem[b + 1]) / 8 < mem.Length < WORD_LIMIT
      modifies mem
      ensures n == b + 1 + SizeOf(old(mem[b + 1])) / 8
      ensures mem[..] == old(mem[..])[n := b]
    {
      n := BlockNext(b);
      mem[n] := b;
    }

    method BlockMarkAsFree(b: int)
      requires 0 <= b && b + 1 < mem.Length < WORD_LIMIT && b + 1 < NextWord(mem[..], b)
        && NextWord(mem[..], b) + 1 < mem.Length
      modifies mem
      ensures MarkStored(old(mem[..]), mem[..], b, NextWord(old(mem[..]), b), true)
    {
      var next := BlockLinkNext(b);
      BlockSetPrevFree(next, true);
      BlockSetFree(b, true);
    }

    method BlockMarkAsUsed(b: int)
      requires 0 <= b && b + 1 < mem.Length && b + 1 < NextWord(mem[..], b) && NextWord(mem[..], b) + 1 < mem.Length
      modifies mem
      ensures MarkStored(old(mem[..]), mem[..], b, NextWord(old(mem[..]), b), false)
    {
      var next := BlockNext(b);
      BlockSetPrevFree(next, false);
      BlockSetFree(b, false);
    }

    method BlockCanSplit(b: int, size: nat) returns (can: bool)
      requires 0 <= b && b + 1 < mem.Length
      ensures can == (SizeOf(mem[b + 1]) >= HEADER_SIZE + size)
    {
      var blockSize := BlockSize(b);
      can := blockSize >= HEADER_SIZE + size;
    }

    /** block_split; the second block's flags are left partly stale. */
    method BlockSplit(b: int, size: nat) returns (remaining: int)
      requires 0 <= b && b + 1 < mem.Length < WORD_LIMIT && size % 8 == 0
      requires SizeOf(mem[b + 1]) % 8 == 0 && size + 16 <= SizeOf(mem[b + 1]) < 0x1_0000_0000
      requires NextWord(mem[..], b) + 1 < mem.Length
      modifies mem
      ensures remaining == b + 1 + size / 8
      ensures SplitStored(old(mem[..]), mem[..], b, remaining, NextWord(old(mem[..]), b), size)
    {
      hide SplitStored, MarkStored, SizeOf, WithSize, NextWord;
      ghost var m := mem[..];
      remaining := OffsetToBlock(b + 2, size - 8);
      SplitWords(m, b, remaining, size);
      SplitSizes(b, remaining, size);
      ghost var m1 := mem[..];
      SplitNext(m, m1, b, remaining, size);
      BlockMarkAsFree(remaining);
      SplitStores(m, m1, mem[..], b, remaining, NextWord(m, b), size);
    }

    /** The two sizes block_split stores. */
    method SplitSizes(b: int, remaining: int, size: nat)
      requires 0 <= b < remaining && remaining + 1 < mem.Length && size % 8 == 0
      requires SizeOf(mem[b + 1]) % 8 == 0 && size + 16 <= SizeOf(mem[b + 1]) < 0x1_0000_0000
      modifies mem
      ensures SizesStored(old(mem[..]), mem[..], b, remaining, size)
    {
      hide SizeOf, WithSize;
      var blockSize := BlockSize(b);
      var remainSize := blockSize - (size + 8);
      SetSizeFits(mem[remaining + 1], remainSize);
      SetSizeFits(mem[b + 1], size);
      BlockSetSize(remaining, remainSize);
      BlockSetSize(b, size);
    }

    /** block_split of a free block, with the link and the flag that make the second block's
        header right; one caller stores the flag first, the other the link. */
    method SplitAndLink(b: int, size: nat, flagFirst: bool) returns (remaining: int)
      requires 0 <= b && b + 1 < mem.Length < WORD_LIMIT && size % 8 == 0 && size >= 24
      requires SizeOf(mem[b + 1]) % 8 == 0 && size + 16 <= SizeOf(mem[b + 1]) < 0x1_0000_0000
      requires NextWord(mem[..], b) + 1 < mem.Length
      modifies mem
      ensures remaining == b + 1 + size / 8
      ensures SplitRepaired(old(mem[..]), mem[..], b, remaining, NextWord(old(mem[..]), b), size, true)
    {
      ghost var m := mem[..];
      remaining := BlockSplit(b, size);
      ghost var m0 := mem[..];
      SetSizeFits(m[b + 1], size);
      if flagFirst {
        BlockSetPrevFree(remaining, true);
        var _ := BlockLinkNext(b);
      } else {
        var _ := BlockLinkNext(b);
        BlockSetPrevFree(remaining, true);
      }
      assert mem[..] == m0[remaining := b][remaining + 1 := WithPrevFree(m0[remaining + 1], true)];
      SplitRepair(m, m0, mem[..], b, remaining, NextWord(m, b), size, true);
    }

    /** block_absorb: the size of `b` is added to that of `prev`, whose flags stay. */
    method BlockAbsorb(prev: int, b: int)
      requires 0 <= prev && prev + 1 < mem.Length < WORD_LIMIT && 0 <= b && b + 1 < mem.Length
      requires mem[prev + 1] + SizeOf(mem[b + 1]) + 8 < WORD_LIMIT
      requires prev + 1 < prev + 1 + SizeOf(mem[prev + 1] + SizeOf(mem[b + 1]) + 8) / 8 < mem.Length
      modifies mem
      ensures AbsorbStored(old(mem[..]), mem[..], prev, b,
                           prev + 1 + SizeOf(old(mem[prev + 1] + SizeOf(mem[b + 1]) + 8)) / 8)
    {
      var size := BlockSize(b);
      mem[prev + 1] := mem[prev + 1] + (size + 8);
      var next := BlockLinkNext(prev);
    }

    // -------------------------------------------------------------- free lists

    method RemoveFreeBlock(b: int, fl: nat, sl: nat, ghost loose: set<int>)
      requires Ready(loose) && b in st.blk && st.blk[b].free && b !in loose
      requires fl < FL_INDEX_COUNT && sl < SL_INDEX_COUNT && UnitClass(st.blk[b].units) == SL_INDEX_COUNT * fl + sl
      modifies this`flBitmap, this`st, mem, slBitmap, blocks
      ensures Ready(loose + {b}) && st == Unlist(old(st), b)
      ensures Kept(old(mem[..]), mem[..], old(st), st)
    {
      hide Tiling, Listed, Kept, UnitClass, Shl32, Not, And, RemoveValue, Unlist;
      RemoveStep(mem[..], blocks[..], flBitmap, slBitmap[..], st, loose, b, fl, sl);
      UnfileBlock(b, fl, sl, RemoveValue(st.lists[SL_INDEX_COUNT * fl + sl], b));
      st := Unlist(st, b);
    }

    /** The stores of remove_free_block, when the list is left as l. */
    method UnfileBlock(b: int, fl: nat, sl: nat, ghost l: seq<int>)
      requires fl < FL_INDEX_COUNT && sl < SL_INDEX_COUNT && blocks.Length == CLASS_COUNT
        && slBitmap.Length == FL_INDEX_COUNT
      requires 0 <= b && b + 3 < mem.Length && mem[b + 2] + 3 < mem.Length && mem[b + 3] + 2 < mem.Length
      requires l == [] <==> blocks[SL_INDEX_COUNT * fl + sl] == b && mem[b + 2] == NULL_BLOCK
      modifies this`flBitmap, mem, slBitmap, blocks
      ensures mem[..] == Unlink(old(mem[..]), b)
      ensures blocks[..] == RemovedHead(old(mem[..]), old(blocks[..]), b, SL_INDEX_COUNT * fl + sl)
      ensures slBitmap[..] == DrainedSl(old(slBitmap[..]), fl, sl, l)
      ensures flBitmap == DrainedFl(old(flBitmap), slBitmap[..], fl, l)
    {
      hide Shl32, Not, And;
      OneShifted(sl);
      OneShifted(fl);
      ghost var m, heads, slMap := mem[..], blocks[..], slBitmap[..];
      var prev := mem[b + 3];
      var next := mem[b + 2];
      mem[next + 3] := prev;
      mem[prev + 2] := next;
      if blocks[SL_INDEX_COUNT * fl + sl] == b {
        blocks[SL_INDEX_COUNT * fl + sl] := next;
        if next == NULL_BLOCK {
          slBitmap[fl] := And(slBitmap[fl], Not(32, Shl32(1, sl)));
          if slBitmap[fl] == 0 {
            flBitmap := And(flBitmap, Not(32, Shl32(1, fl)));
          }
        }
      }
      assert mem[..] == Unlink(m, b);
      assert blocks[..] == RemovedHead(m, heads, b, SL_INDEX_COUNT * fl + sl);
      assert slBitmap[..] == DrainedSl(slMap, fl, sl, l);
    }

    method InsertFreeBlock(b: int, fl: nat, sl: nat, ghost loose: set<int>)
      requires Ready(loose) && b in st.blk && b != st.end && st.blk[b].free && b in loose
      requires fl < FL_INDEX_COUNT && sl < SL_INDEX_COUNT && UnitClass(st.blk[b].units) == SL_INDEX_COUNT * fl + sl
      modifies this`flBitmap, this`st, mem, slBitmap, blocks
      ensures Ready(loose - {b}) && st == Enlist(old(st), b)
      ensures Kept(old(mem[..]), mem[..], old(st), st)
    {
      InsertStep(mem[..], blocks[..], flBitmap, slBitmap[..], st, loose, b, fl, sl);
      FileBlock(b, fl, sl);
      st := Enlist(st, b);
    }

    /** The stores of insert_free_block. */
    method FileBlock(b: int, fl: nat, sl: nat)
      requires fl < FL_INDEX_COUNT && sl < SL_INDEX_COUNT && blocks.Length == CLASS_COUNT
        && slBitmap.Length == FL_INDEX_COUNT
      requires 0 <= b && b + 3 < mem.Length < WORD_LIMIT
      requires var head := blocks[SL_INDEX_COUNT * fl + sl]; 0 <= head && head + 3 < mem.Length
      modifies this`flBitmap, mem, slBitmap, blocks
      ensures var k := SL_INDEX_COUNT * fl + sl;
        && mem[..] == LinkFront(old(mem[..]), old(blocks[k]), b) && blocks[..] == old(blocks[..])[k := b]
      ensures flBitmap == Or(old(flBitmap), Shl32(1, fl))
      ensures slBitmap[..] == old(slBitmap[..])[fl := Or(old(slBitmap[fl]), Shl32(1, sl))]
    {
      var current := blocks[SL_INDEX_COUNT * fl + sl];
      mem[b + 2] := current;
      mem[b + 3] := NULL_BLOCK;
      mem[current + 3] := b;
      blocks[SL_INDEX_COUNT * fl + sl] := b;
      flBitmap := Or(flBitmap, Shl32(1, fl));
      slBitmap[fl] := Or(slBitmap[fl], Shl32(1, sl));
    }

    method BlockRemove(b: int, ghost loose: set<int>)
      requires Ready(loose) && b in st.blk && st.blk[b].free && b !in loose
      modifies this`flBitmap, this`st, mem, slBitmap, blocks
      ensures Ready(loose + {b}) && st == Unlist(old(st), b)
      ensures Kept(old(mem[..]), mem[..], old(st), st)
    {
      BlockFacts(mem[..], blocks[..], st, b);
      ClassFits(st, b);
      var size := BlockSize(b);
      var (fl, sl) := MappingInsert(size);
      ClassOfIsScan(size);
      ClassInTable(size);
      RemoveFreeBlock(b, fl, sl, loose);
    }

    method BlockInsert(b: int, ghost loose: set<int>)
      requires Ready(loose) && b in st.blk && b != st.end && st.blk[b].free && b in loose
      modifies this`flBitmap, this`st, mem, slBitmap, blocks
      ensures Ready(loose - {b}) && st == Enlist(old(st), b)
      ensures Kept(old(mem[..]), mem[..], old(st), st)
    {
      BlockFacts(mem[..], blocks[..], st, b);
      ClassFits(st, b);
      var size := BlockSize(b);
      var (fl, sl) := MappingInsert(size);
      ClassOfIsScan(size);
      ClassInTable(size);
      InsertFreeBlock(b, fl, sl, loose);
    }

    /** search_suitable_block: the head of the least non-empty list at or above (fl, sl). */
    method SearchSuitableBlock(fl: nat, sl: nat) returns (b: int, fl': nat, sl': nat)
      requires Ready({}) && fl < FL_INDEX_COUNT && sl < SL_INDEX_COUNT
      ensures var k := FirstNonEmpty(st.lists, SL_INDEX_COUNT * fl + sl);
        if k == CLASS_COUNT then b == NULL_BLOCK
        else b == st.lists[k][0] && fl' < FL_INDEX_COUNT && sl' < SL_INDEX_COUNT && k == SL_INDEX_COUNT * fl' + sl'
    {
      fl', sl' := fl, sl;
      SearchIsScan(flBitmap, slBitmap[..], st.lists, fl, sl);
      var slMap := And(slBitmap[fl], Shl32(0xffff_ffff, sl));
      if slMap == 0 {
        var flMap := And(flBitmap, Shl32(0xffff_ffff, fl + 1));
        if flMap == 0 {
          return NULL_BLOCK, fl', sl';
        }
        fl' := Ffs(flMap);
        slMap := slBitmap[fl'];
      }
      sl' := Ffs(slMap);
      b := blocks[SL_INDEX_COUNT * fl' + sl'];
      assert Threaded(mem[..], blocks[..], st.lists, SL_INDEX_COUNT * fl' + sl');
    }

    /** block_locate_free: takes a block for an adjusted size off its list. */
    method BlockLocateFree(size: nat) returns (b: int)
      requires Valid() && size % 8 == 0 && size < BLOCK_SIZE_MAX
      modifies this`flBitmap, this`st, mem, slBitmap, blocks
      ensures b == Locate(old(st), size)
      ensures b == NULL_BLOCK ==> st == old(st) && Ready({}) && mem[..] == old(mem[..])
      ensures b != NULL_BLOCK ==> b in old(st).blk && st == Unlist(old(st), b) && Ready({b})
      ensures Kept(old(mem[..]), mem[..], old(st), st)
    {
      hide Tiling, Mirrors, Bitmapped, Unlist, FirstNonEmpty, FirstSufficient, MappingSearch, Locate, UnitClass;
      LocateIs(st, size);
      b := NULL_BLOCK;
      if size != 0 {
        var (fl, sl) := MappingSearch(size);
        SearchStarts(size, fl, sl);
        if fl < FL_INDEX_COUNT {
          b, fl, sl := SearchSuitableBlock(fl, sl);
          if b != NULL_BLOCK {
            LocateFound(st, size);
            assert {} + {b} == {b};
            RemoveFreeBlock(b, fl, sl, {});
          }
        }
      }
    }

    // -------------------------------------------------------------- joining and trimming

    /** block_merge_prev */
    method BlockMergePrev(b: int) returns (c: int)
      requires Ready({b}) && Mid(st, {b}) && b in st.blk && b != st.end && st.blk[b].free
      modifies this`flBitmap, this`st, mem, slBitmap, blocks
      ensures (st, c) == MergePrev(old(st), b) && Ready({c}) && Mid(st, {c})
      ensures c in st.blk && c != st.end && st.blk[c].free
      ensures Kept(old(mem[..]), mem[..], old(st), st)
    {
      hide Listed, Mirrors, AbsorbStored, SizeOf, UnitClass;
      c := b;
      BlockFacts(mem[..], blocks[..], st, b);
      MergePrevStep(mem[..], blocks[..], st, b);
      var prevFree := BlockIsPrevFree(b);
      if prevFree {
        c := mem[b];
        BlockRemove(c, {b});
        ghost var m, s := mem[..], st;
        AbsorbReady(m, blocks[..], s, c);
        BlockAbsorb(c, b);
        AbsorbStep(m, mem[..], blocks[..], s, {b} + {c}, c);
        st := Absorb(s, c);
        assert {b} + {c} - {b} == {c};
        KeptTwice(old(mem[..]), m, mem[..], old(st), s, st);
      }
    }

    /** block_merge_next; the block may be used. */
    method BlockMergeNext(b: int, ghost loose: set<int>)
      requires Ready(loose) && b in st.blk && b != st.end && (st.blk[b].free ==> b in loose)
      requires Next(st, b) in st.blk && Next(st, b) !in loose
      modifies this`flBitmap, this`st, mem, slBitmap, blocks
      ensures st == MergeNext(old(st), b) && Ready(loose)
      ensures Kept(old(mem[..]), mem[..], old(st), st)
    {
      hide Mirrors, SizeOf, FreeBit, AbsorbStored;
      BlockFacts(mem[..], blocks[..], st, b);
      BlockFacts(mem[..], blocks[..], st, Next(st, b));
      var next := BlockNext(b);
      var free := BlockIsFree(next);
      if free {
        assert BlockOk(st, next);
        BlockRemove(next, loose);
        ghost var m, s := mem[..], st;
        AbsorbReady(m, blocks[..], s, b);
        BlockAbsorb(b, next);
        AbsorbStep(m, mem[..], blocks[..], s, loose + {next}, b);
        st := Absorb(s, b);
        assert loose + {next} - {next} == loose;
        KeptTwice(old(mem[..]), m, mem[..], old(st), s, st);
      }
    }

    /** block_trim_free */
    method BlockTrimFree(b: int, size: nat)
      requires Ready({b}) && b in st.blk && b != st.end && st.blk[b].free && size % 8 == 0 && size >= BLOCK_SIZE_MIN
      modifies this`flBitmap, this`st, mem, slBitmap, blocks
      ensures Next(old(st), b) in old(st).blk && st == TrimFree(old(st), b, size / 8) && Ready({b})
      ensures Kept(old(mem[..]), mem[..], old(st), st)
    {
      MarkReady(mem[..], blocks[..], st, b);
      var can := BlockCanSplit(b, size);
      if can {
        ghost var m, s := mem[..], st;
        var remaining := SplitAndLink(b, size, false);
        ghost var m1 := mem[..];
        SplitStep(m, m1, blocks[..], s, {b}, b, size / 8);
        st := Split(s, b, size / 8);
        ghost var s1 := st;
        BlockInsert(remaining, {b} + {remaining});
        assert {b} + {remaining} - {remaining} == {b};
        KeptTwice(m, m1, mem[..], s, s1, st);
      }
    }

    /** block_trim_used. The two ways to split are the same calls; to size 0 there is no heap between
        them, nor after them. */
    method BlockTrimUsed(b: int, size: nat)
      requires Valid() && Live(st, b) && size % 8 == 0 && (size == 0 || size >= BLOCK_SIZE_MIN)
      modifies this`flBitmap, this`st, mem, slBitmap, blocks
      ensures size > 0 || old(st.blk[b].units) == 3 ==>
        st == TrimUsed(old(st), b, size / 8) && Ready({}) && Kept(old(mem[..]), mem[..], old(st), st)
      ensures size == 0 && old(st.blk[b].units) == 3 ==> mem[..] == old(mem[..])
      ensures size == 0 && old(st.blk[b].units) > 3 ==>
        st == old(st) && Spoiled(old(mem[..]), mem[..], blocks[..], st, b)
    {
      hide Spoiled, Mirrors, Bitmapped, SizeOf, TrimUsed;
      MarkReady(mem[..], blocks[..], st, b);
      TrimUsedStays(st, b, size / 8);
      var can := BlockCanSplit(b, size);
      if can {
        if size == 0 { TrimToZero(b); } else { TrimToSize(b, size); }
      }
    }

    method TrimToSize(b: int, size: nat)
      requires Valid() && Live(st, b) && size % 8 == 0 && size >= BLOCK_SIZE_MIN && CanSplit(st.blk[b].units, size / 8)
      modifies this`flBitmap, this`st, mem, slBitmap, blocks
      ensures st == TrimUsed(old(st), b, size / 8) && Ready({})
      ensures Kept(old(mem[..]), mem[..], old(st), st)
    {
      hide Listed, Mirrors, Bitmapped, SplitStored, SplitRepaired, SizeOf;
      MarkReady(mem[..], blocks[..], st, b);
      ghost var m, s := mem[..], st;
      var remaining := BlockSplit(b, size);
      ghost var m0 := mem[..];
      BlockSetPrevFree(remaining, false);
      ghost var m1 := mem[..];
      SplitRepair(m, m0, m1, b, remaining, Next(s, b), size, false);
      SplitStep(m, m1, blocks[..], s, {}, b, size / 8);
      st := Split(s, b, size / 8);
      ghost var s1 := st;
      assert {} + {remaining} == {remaining};
      assert BlockOk(s1, remaining);
      BlockMergeNext(remaining, {remaining});
      ghost var m2, s2 := mem[..], st;
      MergeNextPayloads(s1, remaining);
      KeptTwice(m, m1, m2, s, s1, s2);
      assert BlockOk(s2, remaining);
      BlockInsert(remaining, {remaining});
      assert {remaining} - {remaining} == {};
      KeptTwice(m, m2, mem[..], s, s2, st);
    }

    /** block_trim_used to size 0 of a block that can be split: the same steps, which spoil the heap. */
    method TrimToZero(b: int)
      requires Valid() && Live(st, b) && st.blk[b].units >= 4
      modifies this`flBitmap, mem, slBitmap, blocks
      ensures Spoiled(old(mem[..]), mem[..], blocks[..], st, b)
    {
      hide Inv, Tiling, Listed, Bitmapped, SplitStored, SplitToZero, Spoiled;
      ghost var m, heads := mem[..], blocks[..];
      RowsOf(flBitmap, slBitmap[..], st.lists);
      MarkReady(m, heads, st, b);
      var remaining := BlockSplit(b, 0);
      ghost var m0 := mem[..];
      BlockSetPrevFree(remaining, false);
      SplitToZeroOf(m, m0, mem[..], heads, st, b);
      ghost var units, y, z, e := MergeAfterZero(b, m);
      ghost var m1, heads1 := mem[..], blocks[..];
      var size := BlockSize(remaining);
      TagReads(Blk(units, true, false));
      var (fl, sl) := MappingInsert(size);
      ClassInTable(size);
      FiledAfterZero(m, m1, heads, heads1, st, b, units, y, z, e, SL_INDEX_COUNT * fl + sl);
      FileBlock(remaining, fl, sl);
    }

    /** block_merge_next of the rest, whose header is inside block b. */
    method MergeAfterZero(b: int, ghost m: seq<Word>)
      returns (ghost units: nat, ghost y: int, ghost z: int, ghost e: int)
      requires Tiling(st) && Listed(st, {}) && Mirrors(m, blocks[..], st) && Bitmapped(flBitmap, slBitmap[..], st.lists)
      requires Live(st, b) && st.blk[b].units >= 4 && SplitToZero(m, mem[..], st, b)
      modifies this`flBitmap, mem, slBitmap, blocks
      ensures JoinedAfterZero(m, mem[..], blocks[..], st, b, units, y, z, e)
    {
      hide Tiling, Listed, Bitmapped, Mirrors, JoinedAfterZero, SizeOf, FreeBit, Tag;
      ghost var n, m1, heads := Next(st, b), mem[..], blocks[..];
      NextAfterZero(m, m1, heads, st, b);
      var next := BlockNext(b + 1);
      var free := BlockIsFree(next);
      if free {
        JoinAfterZero(b, next, m);
        units, y, z, e := st.blk[b].units + st.blk[n].units, m[n + 2], m[n + 3], Next(st, n);
      } else {
        NotJoined(m, m1, heads, st, b);
        units, y, z, e := st.blk[b].units - 1, NULL_BLOCK, NULL_BLOCK, n;
      }
    }

    /** The free successor leaves its list and joins the rest. */
    method JoinAfterZero(b: int, next: int, ghost m: seq<Word>)
      requires Tiling(st) && Listed(st, {}) && Mirrors(m, blocks[..], st) && Bitmapped(flBitmap, slBitmap[..], st.lists)
      requires Live(st, b) && st.blk[b].units >= 4 && SplitToZero(m, mem[..], st, b)
      requires next == Next(st, b) && next != st.end && st.blk[next].free
      modifies this`flBitmap, mem, slBitmap, blocks
      ensures next + 3 < |m|
      ensures JoinedAfterZero(m, mem[..], blocks[..], st, b, st.blk[b].units + st.blk[next].units,
                              m[next + 2], m[next + 3], Next(st, next))
    {
      hide Tiling, Listed, Bitmapped, Mirrors, JoinedAfterZero, RemovedHead, SizeOf, FreeBit, Unlink;
      hide AbsorbStored, Kept, RemoveValue, Unlist, DrainedSl, DrainedFl, Tag, NullOrFree, SplitToZero;
      hide MappingInsert, ClassBySize;
      ghost var m1, heads := mem[..], blocks[..];
      RowsOf(flBitmap, slBitmap[..], st.lists);
      NextAfterZero(m, m1, heads, st, b);
      UnlinkedAfterZero(m, m1, heads, st, b);
      var size := BlockSize(next);
      var (fl, sl) := MappingInsert(size);
      ClassOfIsScan(size);
      ClassInTable(size);
      ListEmptied(m, heads, st, next, SL_INDEX_COUNT * fl + sl);
      UnfileBlock(next, fl, sl, RemoveValue(st.lists[SL_INDEX_COUNT * fl + sl], next));
      ghost var m2 := mem[..];
      SuccessorReady(m, m1, m2, heads, st, b);
      BlockAbsorb(b + 1, next);
      JoinedBySuccessor(m, m1, m2, mem[..], heads, st, b, SL_INDEX_COUNT * fl + sl);
    }

    /** block_trim_free_leading: the block kept is the second one. */
    method BlockTrimFreeLeading(b: int, size: nat) returns (remaining: int)
      requires Ready({b}) && b in st.blk && b != st.end && st.blk[b].free && size % 8 == 0 && size >= HEADER_SIZE
      modifies this`flBitmap, this`st, mem, slBitmap, blocks
      ensures Next(old(st), b) in old(st).blk && (st, remaining) == TrimLeading(old(st), b, size / 8)
      ensures Ready({remaining})
      ensures Kept(old(mem[..]), mem[..], old(st), st)
    {
      hide Listed, Mirrors, SplitRepaired, Enlist;
      remaining := b;
      MarkReady(mem[..], blocks[..], st, b);
      var can := BlockCanSplit(b, size);
      if can {
        ghost var m, s := mem[..], st;
        ghost var units := size / 8 - 1;
        assert size - 8 == 8 * units && units >= 3 && units + 4 <= s.blk[b].units;
        remaining := SplitAndLink(b, size - 8, true);
        ghost var m1 := mem[..];
        assert remaining == Rest(b, units);
        SplitStep(m, m1, blocks[..], s, {b}, b, units);
        st := Split(s, b, units);
        ghost var s1 := st;
        BlockInsert(b, {b} + {remaining});
        assert {b} + {remaining} - {b} == {remaining};
        KeptTwice(m, m1, mem[..], s, s1, st);
      }
    }

    static function AddressOf(base: nat, b: int): int {
      if b == NULL_BLOCK then 0 else PayloadAddress(base, b)
    }

    /** block_prepare_used */
    method BlockPrepareUsed(b: int, size: nat) returns (p: nat)
      requires Ready({b}) && b in st.blk && b != st.end && st.blk[b].free && size % 8 == 0 && size >= BLOCK_SIZE_MIN
      modifies this`flBitmap, this`st, mem, slBitmap, blocks
      ensures st == PrepareUsed(old(st), b, size / 8) && p == PayloadAddress(base, b) && Ready({})
      ensures Kept(old(mem[..]), mem[..], old(st), st)
    {
      ghost var m, s := mem[..], st;
      assert BlockOk(st, b);
      BlockTrimFree(b, size);
      ghost var m1, s1 := mem[..], st;
      assert b != s1.end;
      MarkReady(m1, blocks[..], s1, b);
      BlockMarkAsUsed(b);
      MarkStep(m1, mem[..], blocks[..], s1, {b}, b, false);
      st := Mark(s1, b, false);
      assert {b} - {b} == {};
      TrimFreePayloads(s, b, size / 8);
      KeptTwice(m, m1, mem[..], s, s1, st);
      p := base + 8 * (b + 2);
    }

    // -------------------------------------------------------------- the interface

    /** tlsf_malloc */
    method Malloc(size: nat) returns (p: nat)
      requires Valid() && size < WORD_LIMIT
      modifies this`flBitmap, this`st, mem, slBitmap, blocks
      ensures Valid()
        && (st, p) == (HeapSpec.Malloc(old(st), size).0, AddressOf(base, HeapSpec.Malloc(old(st), size).1))
      ensures p == 0 ==> st == old(st) && mem[..] == old(mem[..])
      ensures Kept(old(mem[..]), mem[..], old(st), st)
    {
      var adjust := AdjustRequestSize(size, ALIGN_SIZE);
      AdjustRequest(size);
      MallocKeepsInv(st, size);
      ghost var m, s := mem[..], st;
      var b := BlockLocateFree(adjust);
      p := 0;
      if b != NULL_BLOCK {
        LocateFound(s, adjust);
        NotNull(s, b);
        ghost var m1, s1 := mem[..], st;
        p := BlockPrepareUsed(b, adjust);
        KeptTwice(m, m1, mem[..], s, s1, st);
      }
    }

    /** The part of tlsf_memalign that finds the aligned address in a block: the distance to
        it from the block's payload. */
    static method FindGap(ptr: nat, align: nat) returns (gap: nat)
      requires align > 0
      ensures gap == AlignGap(ptr, align)
    {
      var aligned := AlignPtr(ptr, align);
      gap := aligned - ptr;
      if gap != 0 && gap < HEADER_SIZE {
        var gapRemain := HEADER_SIZE - gap;
        var offset := if gapRemain > align then gapRemain else align;
        aligned := AlignPtr(aligned + offset, align);
        gap := aligned - ptr;
      }
    }

    /** The part of tlsf_memalign that carves the aligned payload out of the block found. */
    method CarveAligned(b: int, align: nat, adjust: nat) returns (p: nat)
      requires Ready({b}) && Mid(st, {b}) && b in st.blk && b != st.end && st.blk[b].free && Coalesced(st) && align > 0
      requires PayloadAddress(base, b) >= 0 && adjust % 8 == 0 && adjust >= BLOCK_SIZE_MIN
      requires var gap := AlignGap(PayloadAddress(base, b), align); gap % 8 == 0 && (gap == 0 || gap >= HEADER_SIZE)
      modifies this`flBitmap, this`st, mem, slBitmap, blocks
      ensures Ready({})
      ensures var (t, c) := MemalignHead(old(st), base, align, b);
        && Tiling(t) && c in t.blk && c != t.end
        && st == PrepareUsed(t, c, adjust / 8) && p == PayloadAddress(base, c)
      ensures Kept(old(mem[..]), mem[..], old(st), st)
    {
      var gap := FindGap(base + 8 * (b + 2), align);
      ghost var m, s := mem[..], st;
      TrimLeadingMid(s, b, gap / 8);
      LeadingPayloads(s, b, gap / 8);
      var c := b;
      if gap != 0 {
        c := BlockTrimFreeLeading(b, gap);
      }
      ghost var m1, s1 := mem[..], st;
      p := BlockPrepareUsed(c, adjust);
      KeptTwice(m, m1, mem[..], s, s1, st);
    }

    /** tlsf_memalign */
    method Memalign(align: nat, size: nat) returns (p: nat)
      requires Valid() && size < WORD_LIMIT && PowerOfTwo(align)
      modifies this`flBitmap, this`st, mem, slBitmap, blocks
      ensures Valid()
      ensures (st, p) ==
        (HeapSpec.Memalign(old(st), base, align, size).0,
         AddressOf(base, HeapSpec.Memalign(old(st), base, align, size).1))
      ensures Kept(old(mem[..]), mem[..], old(st), st)
    {
      hide Kept, Tiling, Listed, Mirrors, Bitmapped, AdjustRequestSize, PrepareUsed, MemalignHead, UnitClass;
      var adjust := AdjustRequestSize(size, ALIGN_SIZE);
      var sizeWithGap := AdjustRequestSize(adjust + align + HEADER_SIZE, align);
      var alignedSize := if adjust != 0 && align > ALIGN_SIZE then sizeWithGap else adjust;
      MemalignSearch(align, size);
      MemalignKeepsInv(st, base, align, size);
      AlignedSizeFits(align, size);
      ghost var m, s := mem[..], st;
      var b := BlockLocateFree(alignedSize);
      p := 0;
      if b != NULL_BLOCK {
        MemalignHeadOk(s, base, align, size);
        LocateFound(s, alignedSize);
        MidUnlist(s, b, {});
        assert {} + {b} == {b};
        ghost var m1, s1 := mem[..], st;
        CoalescedSameBlocks(s, s1);
        p := CarveAligned(b, align, adjust);
        KeptTwice(m, m1, mem[..], s, s1, st);
      }
    }

    /** Whether p is null or points to the payload of a live block. */
    ghost predicate Owned(p: nat)
      reads this
    {
      p == 0 || (Live(st, BlockFrom(p)) && p == PayloadAddress(base, BlockFrom(p)))
    }

    /** block_from_ptr */
    function BlockFrom(p: nat): int {
      (p - base) / 8 - 2
    }

    /** tlsf_free */
    method Free(p: nat)
      requires Valid() && Owned(p)
      modifies this`flBitmap, this`st, mem, slBitmap, blocks
      ensures Valid() && st == if p == 0 then old(st) else HeapSpec.Free(old(st), BlockFrom(p))
      ensures p == 0 ==> mem[..] == old(mem[..])
      ensures Kept(old(mem[..]), mem[..], old(st), st)
    {
      hide Listed, Mirrors, Bitmapped, MarkStored, SizeOf, UnitClass;
      if p != 0 {
        var b := BlockFrom(p);
        ghost var m, s := mem[..], st;
        FreeKeepsInv(s, b);
        FreeMarks(s, b);
        MarkReady(m, blocks[..], s, b);
        BlockMarkAsFree(b);
        ghost var m1 := mem[..];
        MarkStep(m, m1, blocks[..], s, {}, b, true);
        st := Mark(s, b, true);
        ghost var s1 := st;
        assert {} + {b} == {b};
        b := BlockMergePrev(b);
        ghost var m2, s2 := mem[..], st;
        assert (s2, b) == FreeHead(s, BlockFrom(p));
        MergePrevPayloads(s1, BlockFrom(p));
        KeptTwice(m, m1, m2, s, s1, s2);
        assert BlockOk(s2, b);
        BlockMergeNext(b, {b});
        ghost var m3, s3 := mem[..], st;
        MergeNextPayloads(s2, b);
        KeptTwice(m, m2, m3, s, s2, s3);
        BlockInsert(b, {b});
        assert {b} - {b} == {};
        KeptTwice(m, m3, mem[..], s, s3, st);
      }
    }

    /** memcpy of n bytes between payloads, a word at a time and then the odd bytes. */
    method CopyBytes(dst: int, src: int, n: nat)
      requires 0 <= dst && dst + (n + 7) / 8 <= mem.Length && 0 <= src && src + (n + 7) / 8 <= mem.Length
      requires src + (n + 7) / 8 <= dst || dst + (n + 7) / 8 <= src
      modifies mem
      ensures forall w {:trigger mem[w]} :: 0 <= w < mem.Length && !(dst <= w < dst + (n + 7) / 8) ==>
        mem[w] == old(mem[w])
      ensures forall i: nat :: i < n ==> ByteAt(mem[..], dst, i) == ByteAt(old(mem[..]), src, i)
    {
      var k := 0;
      while k < n / 8
        invariant 0 <= k <= n / 8
        invariant forall w {:trigger mem[w]} :: 0 <= w < mem.Length && !(dst <= w < dst + k) ==> mem[w] == old(mem[w])
        invariant forall w {:trigger mem[w]} :: dst <= w < dst + k ==> mem[w] == old(mem[w - dst + src])
      {
        mem[dst + k] := mem[src + k];
        k := k + 1;
      }
      if n % 8 != 0 {
        WordIsEightBytes();
        MergeLowFits(mem[dst + k], mem[src + k], n % 8, 8);
        ghost var d, s := mem[dst + k], mem[src + k];
        forall j: nat ensures Byte(MergeLow(d, s, n % 8), j) == Byte(if j < n % 8 then s else d, j) {
          MergeLowBytes(d, s, n % 8, j);
        }
        mem[dst + k] := MergeLow(mem[dst + k], mem[src + k], n % 8);
      }
    }

    /** The block of a pointer that may be null. */
    function BlockOrNull(p: nat): int {
      if p == 0 then NULL_BLOCK else BlockFrom(p)
    }

    /** tlsf_realloc. The heap is kept exactly when the call does not spoil it; a spoiled block comes
        back at its old address. */
    method Realloc(p: nat, size: nat) returns (q: nat)
      requires Valid() && Owned(p) && size < WORD_LIMIT
      modifies this`flBitmap, this`st, mem, slBitmap, blocks
      ensures Valid() <==> !(p != 0 && Spoils(old(st), BlockFrom(p), size))
      ensures var (o, c) := ReallocAny(old(st), BlockOrNull(p), size);
        o == (if Valid() then Sound(st) else Spoilt) && q == AddressOf(base, c)
      ensures p != 0 && size != 0 && Valid() ==>
        Reallocated(old(mem[..]), mem[..], old(st), st, BlockFrom(p), size, base, q)
      ensures p != 0 && size != 0 && AdjustRequestSize(size, ALIGN_SIZE) == 0 ==> q == p && st == old(st)
      ensures p != 0 && size != 0 && AdjustRequestSize(size, ALIGN_SIZE) == 0 && Valid() ==> mem[..] == old(mem[..])
      ensures !Valid() ==> Spoiled(old(mem[..]), mem[..], blocks[..], st, BlockFrom(p))
      ensures q == 0 && size != 0 ==> st == old(st) && mem[..] == old(mem[..])
      ensures Valid() ==> Kept(old(mem[..]), mem[..], old(st), st)
    {
      hide Mirrors, Bitmapped, Kept, Spoiled, HeapSpec.Malloc, HeapSpec.Free;
      assert p != 0 ==> BlockOk(st, BlockFrom(p));
      q := 0;
      if p != 0 && size == 0 {
        Free(p);
      } else if p == 0 {
        q := Malloc(size);
      } else {
        q := ReallocBlock(p, size);
      }
    }

    /** tlsf_realloc of a live block to a size that is not zero. */
    method ReallocBlock(p: nat, size: nat) returns (q: nat)
      requires Valid() && p != 0 && Owned(p) && 0 < size < WORD_LIMIT
      modifies this`flBitmap, this`st, mem, slBitmap, blocks
      ensures Valid() <==> !Spoils(old(st), BlockFrom(p), size)
      ensures Valid() ==> Reallocated(old(mem[..]), mem[..], old(st), st, BlockFrom(p), size, base, q)
      ensures AdjustRequestSize(size, ALIGN_SIZE) == 0 ==> q == p && st == old(st)
      ensures AdjustRequestSize(size, ALIGN_SIZE) == 0 && Valid() ==> mem[..] == old(mem[..])
      ensures !Valid() ==> Spoiled(old(mem[..]), mem[..], blocks[..], st, BlockFrom(p))
      ensures q == 0 ==> st == old(st) && mem[..] == old(mem[..])
      ensures Valid() ==> Kept(old(mem[..]), mem[..], old(st), st)
    {
      hide Inv, Reallocated, Moved, ResizeInPlace, AdjustRequestSize, Kept, Tiling, Listed, Mirrors, Bitmapped, Spoiled;
      var b := BlockFrom(p);
      ghost var m, s := mem[..], st;
      BlockFacts(m, blocks[..], s, b);
      BlockFacts(m, blocks[..], s, Next(s, b));
      var next := BlockNext(b);
      var curSize := BlockSize(b);
      var nextSize := BlockSize(next);
      var combined := curSize + nextSize as int + 8;
      var adjust := AdjustRequestSize(size, ALIGN_SIZE);
      AdjustRequest(size);
      var nextFree := BlockIsFree(next);
      if adjust > curSize && (!nextFree || adjust > combined) {
        q := ReallocMove(p, b, curSize, size);
        MovedIsReallocated(m, mem[..], s, st, b, size, base, q);
      } else {
        ReallocInPlace(b, curSize, adjust);
        q := p;
        if !Spoils(s, b, size) {
          KeptBytes(m, mem[..], s, st, b);
          KeptIsReallocated(m, mem[..], s, st, b, size, base);
        }
      }
    }

    /** The part of tlsf_realloc that keeps the block where it is. */
    method ReallocInPlace(b: int, curSize: nat, adjust: nat)
      requires Valid() && Live(st, b) && curSize == 8 * st.blk[b].units && adjust % 8 == 0
      requires adjust == 0 || adjust >= BLOCK_SIZE_MIN
      requires Next(st, b) in st.blk && !ReallocMoves(st, b, adjust)
      modifies this`flBitmap, this`st, mem, slBitmap, blocks
      ensures Valid() <==> adjust > 0 || old(st.blk[b].units) == 3
      ensures Valid() ==> Live(st, b) && st == ResizeInPlace(old(st), b, adjust)
      ensures Valid() ==> Kept(old(mem[..]), mem[..], old(st), st)
      ensures adjust == 0 ==> st == old(st)
      ensures adjust == 0 && Valid() ==> mem[..] == old(mem[..])
      ensures !Valid() ==> Spoiled(old(mem[..]), mem[..], blocks[..], st, b)
    {
      hide Spoiled;
      ghost var m, s := mem[..], st;
      if adjust > curSize {
        BlockGrow(b);
      }
      ghost var m1, s1 := mem[..], st;
      assert BlockOk(s, b);
      if adjust > 0 { TrimUsedInv(s1, b, adjust / 8); }
      BlockTrimUsed(b, adjust);
      if adjust > 0 {
        KeptTwice(m, m1, mem[..], s, s1, st);
      } else {
        TrimUsedStays(s, b, 0);
        SpoiledNotReady(m, mem[..], blocks[..], st, b);
      }
    }

    /** The part of tlsf_realloc that takes over the free block behind a used one. */
    method BlockGrow(b: int)
      requires Valid() && Live(st, b) && Next(st, b) in st.blk && st.blk[Next(st, b)].free
      modifies this`flBitmap, this`st, mem, slBitmap, blocks
      ensures Valid() && st == Grow(old(st), b) && Live(st, b) && PayloadsWithin(old(st), st)
      ensures st.blk[b].units == old(st.blk[b].units + st.blk[Next(st, b)].units + 1)
      ensures Kept(old(mem[..]), mem[..], old(st), st)
    {
      hide Listed, Mirrors, SizeOf, Kept;
      ghost var m, s := mem[..], st;
      GrowInv(s, b);
      assert BlockOk(s, b);
      assert BlockOk(s, Next(s, b));
      BlockMergeNext(b, {});
      ghost var m1, s1 := mem[..], st;
      MarkReady(m1, blocks[..], s1, b);
      BlockMarkAsUsed(b);
      MarkStep(m1, mem[..], blocks[..], s1, {}, b, false);
      st := Mark(s1, b, false);
      assert {} - {b} == {};
      KeptTwice(m, m1, mem[..], s, s1, st);
    }

    /** The part of tlsf_realloc that moves a block. */
    method ReallocMove(p: nat, b: int, curSize: nat, size: nat) returns (q: nat)
      requires Valid() && p != 0 && Owned(p) && b == BlockFrom(p) && size <= MAX_UNWRAPPED
      requires curSize == 8 * st.blk[b].units
      modifies this`flBitmap, this`st, mem, slBitmap, blocks
      ensures Valid()
      ensures Moved(old(mem[..]), mem[..], old(st), st, b, size, base, q)
      ensures q == 0 ==> st == old(st) && mem[..] == old(mem[..])
      ensures Kept(old(mem[..]), mem[..], old(st), st)
    {
      hide Tiling, Listed, Mirrors, Bitmapped, HeapSpec.Free, HeapSpec.Malloc, ByteAt;
      ghost var m, s := mem[..], st;
      MallocKeepsInv(s, size);
      MallocKeepsOthers(s, size, b);
      q := Malloc(size);
      if q != 0 {
        ghost var m1, s1 := mem[..], st;
        var c := BlockFrom(q);
        var minSize := if curSize < size then curSize else size;
        MoveRoom(m1, blocks[..], s, size, b, minSize);
        CopyBytes(c + 2, b + 2, minSize);
        ghost var m2 := mem[..];
        CopiedIn(m, m1, m2, blocks[..], s, s1, b, c, minSize);
        Free(p);
        FreeKeepsOthers(s1, b, c);
        MallocPayloads(s, size);
        KeptTwice(m, m2, mem[..], s, s1, st);
        KeptBytes(m2, mem[..], s1, st, c);
        SameBytesTwice(m, m2, mem[..], b, c, c, minSize, 8 * s1.blk[c].units, minSize);
      }
    }

    // -------------------------------------------------------------- pools

    /** tlsf_add_pool on the memory after the control structure. A pool of exactly 2^32 bytes,
        which the code's own test admits, is excluded: its class has no list. */
    method AddPool(bytes: nat) returns (added: bool)
      requires Valid() && st.blk == map[] && st.lists == EmptyLists()
      requires bytes < WORD_LIMIT && FIRST + 1 + bytes / 8 <= mem.Length
      requires bytes / 8 != UNITS_MAX + 2
      modifies this`flBitmap, this`st, mem, slBitmap, blocks
      ensures Valid()
      ensures added <==> 5 <= bytes / 8 < UNITS_MAX + 2
      ensures st == if added then Fresh(bytes / 8 - 2) else old(st)
    {
      hide Mirrors, Bitmapped, Listed, Tiling;
      var poolBytes := PoolBytes(bytes);
      PoolFits(bytes);
      if poolBytes < BLOCK_SIZE_MIN || poolBytes > BLOCK_SIZE_MAX {
        return false;
      }
      WritePool(poolBytes);
      UnfiledEnlisted(poolBytes / 8);
      FreshInv(poolBytes / 8);
      st := Fresh(poolBytes / 8);
      added := true;
    }

    /** The stores of tlsf_add_pool, over whatever the memory held: one free block, filed under its
        class, and then the sentinel. */
    method WritePool(poolBytes: nat)
      requires Ready({}) && st.lists == EmptyLists()
      requires poolBytes % 8 == 0 && BLOCK_SIZE_MIN <= poolBytes < BLOCK_SIZE_MAX
        && FIRST + poolBytes / 8 + 2 < mem.Length
      modifies this`flBitmap, mem, slBitmap, blocks
      ensures var t := Enlist(Unfiled(poolBytes / 8), FIRST);
        && Tiling(t) && Listed(t, {})
        && Mirrors(mem[..], blocks[..], t) && Bitmapped(flBitmap, slBitmap[..], t.lists)
    {
      hide Bitmapped, Listed, Tiling, SizeOf;
      ghost var units, heads, flMap, slMap := poolBytes / 8, blocks[..], flBitmap, slBitmap[..];
      EmptyHeads(mem[..], heads, st);
      RowsOf(flMap, slMap, st.lists);
      var b := FIRST;
      SetHeader(b, poolBytes, true, false);
      TagReads(Blk(units, true, false));
      ghost var m := mem[..];
      var size := BlockSize(b);
      var (fl, sl) := MappingInsert(size);
      ClassOfIsScan(size);
      ClassInTable(size);
      FileBlock(b, fl, sl);
      var next := BlockLinkNext(b);
      SetHeader(next, 0, false, true);
      PoolWritten(m, mem[..], heads, flMap, slMap, units, fl, sl);
    }

    /** The size and both flags of a header, over whatever the word held. */
    method SetHeader(b: int, size: nat, free: bool, prevFree: bool)
      requires 0 <= b && b + 1 < mem.Length && size % 8 == 0 && size < BLOCK_SIZE_MAX
      modifies mem
      ensures Tag(Blk(size / 8, free, prevFree)) < WORD_LIMIT
      ensures mem[..] == old(mem[..])[b + 1 := Tag(Blk(size / 8, free, prevFree))]
    {
      ghost var m := mem[..];
      TagFromStale(m[b + 1], size / 8, free, prevFree);
      BlockSetSize(b, size);
      ghost var w := mem[b + 1];
      BlockSetFree(b, free);
      assert mem[b + 1] == WithFree(w, free);
      BlockSetPrevFree(b, prevFree);
      assert mem[..] == m[b + 1 := mem[b + 1]];
    }

    /** tlsf_remove_pool, when nothing is allocated: the one free block leaves its list. */
    method RemovePool()
      requires Valid() && st.blk != map[] && forall b :: !Live(st, b)
      modifies this`flBitmap, this`st, mem, slBitmap, blocks
      ensures Valid() && st == State(old(st.end), map[], EmptyLists())
    {
      FullReclaim(st);
      ghost var s := st;
      var b := FIRST;
      BlockFacts(mem[..], blocks[..], st, b);
      ClassFits(st, b);
      var size := BlockSize(b);
      var (fl, sl) := MappingInsert(size);
      ClassOfIsScan(size);
      ClassInTable(size);
      RemoveFreeBlock(b, fl, sl, {});
      PoolRemoved(mem[..], blocks[..], s);
      st := State(s.end, map[], EmptyLists());
    }

    // -------------------------------------------------------------- clients

    /** A client storing a word in a payload it owns. */
    method StoreWord(p: nat, i: nat, v: Word)
      requires Valid() && p != 0 && Owned(p) && i < st.blk[BlockFrom(p)].units
      requires 0 <= BlockFrom(p) + 2 + i < mem.Length
      modifies mem
      ensures Valid() && st == old(st)
      ensures mem[..] == old(mem[..])[BlockFrom(p) + 2 + i := v]
    {
      ghost var m := mem[..];
      var b := BlockFrom(p);
      assert BlockOk(st, b);
      mem[b + 2 + i] := v;
      ClientStoreMirrors(m, mem[..], blocks[..], st, {}, b);
    }

    /** tlsf_block_size */
    method SizeOfPayload(p: nat) returns (size: nat)
      requires Valid() && Owned(p)
      ensures size == if p == 0 then 0 else 8 * st.blk[BlockFrom(p)].units
    {
      size := 0;
      if p != 0 {
        BlockFacts(mem[..], blocks[..], st, BlockFrom(p));
        size := BlockSize(BlockFrom(p));
      }
    }

    // -------------------------------------------------------------- consistency checks

    /** What the checks need: headers that tile the pool and lists that are linked. */
    ghost predicate Readable()
      reads this, mem, slBitmap, blocks
    {
      Charted(mem[..], blocks[..], st) && Words(flBitmap, slBitmap[..])
    }

    /** The checks tlsf_check makes of one listed block. */
    method CheckListed(b: int, i: nat, j: nat) returns (status: int)
      requires Readable() && i < FL_INDEX_COUNT && j < SL_INDEX_COUNT && b in st.blk && b != st.end
      ensures status <= 0 && (status == 0 <==> ListedOk(st, SL_INDEX_COUNT * i + j, b))
    {
      hide Charted;
      HeaderReads(mem[..], blocks[..], st, b);
      HeaderReads(mem[..], blocks[..], st, Next(st, b));
      status := 0;
      var free := BlockIsFree(b);
      if !free { status := status - 1; }
      var prevFree := BlockIsPrevFree(b);
      if prevFree { status := status - 1; }
      var next := BlockNext(b);
      var nextFree := BlockIsFree(next);
      if nextFree { status := status - 1; }
      var nextPrevFree := BlockIsPrevFree(next);
      if !nextPrevFree { status := status - 1; }
      var size := BlockSize(b);
      if size < BLOCK_SIZE_MIN { status := status - 1; }
      var (fli, sli) := MappingInsert(size);
      ClassOfIsScan(size);
      if !(fli == i && sli == j) { status := status - 1; }
    }

    /** The part of tlsf_check for one list. */
    method CheckCell(i: nat, j: nat) returns (status: int)
      requires Readable() && i < FL_INDEX_COUNT && j < SL_INDEX_COUNT
      ensures status <= 0 && (status == 0 <==> CellOk(flBitmap, slBitmap[..], st, i, j))
    {
      hide Bit, And, ListedOk;
      status := 0;
      var flMap := And(flBitmap, Shl32(1, i));
      var slList := slBitmap[i];
      var slMap := And(slList, Shl32(1, j));
      var b := blocks[SL_INDEX_COUNT * i + j];
      ghost var k := SL_INDEX_COUNT * i + j;
      ghost var l := st.lists[k];
      BitTest(flBitmap, i);
      BitTest(slList, j);
      assert Threaded(mem[..], blocks[..], st.lists, k) && FromPool(st, k);
      assert ListAt(st.lists, i, j) == l && (b == NULL_BLOCK <==> l == []);
      assert forall q :: 0 <= q < |l| ==> l[q] in l;
      if flMap == 0 && slMap != 0 { status := status - 1; }
      if slMap == 0 {
        if b != NULL_BLOCK { status := status - 1; }
        return;
      }
      if slList == 0 { BitOfZero(j); status := status - 1; }
      if b == NULL_BLOCK { status := status - 1; }
      ghost var p, before := 0, status;
      while b != NULL_BLOCK
        invariant 0 <= p <= |l| && b == At(l, p) && status <= before
        invariant status == before <==> forall q :: 0 <= q < p ==> ListedOk(st, k, l[q])
        decreases |l| - p
      {
        assert b in l && Node(mem[..], l, p);
        var bad := CheckListed(b, i, j);
        status := status + bad;
        b := mem[b + 2];
        p := p + 1;
      }
    }

    /** tlsf_check returns 0 exactly when every list and its bits pass. */
    method Check() returns (status: int)
      requires Readable()
      ensures status <= 0 && (status == 0 <==> Accepted(flBitmap, slBitmap[..], st))
    {
      hide CellOk, Charted;
      status := 0;
      var i := 0;
      while i < FL_INDEX_COUNT
        invariant 0 <= i <= FL_INDEX_COUNT && status <= 0
        invariant status == 0 <==> forall f: nat, g: nat {:trigger CellOk(flBitmap, slBitmap[..], st, f, g)} ::
          f < i && g < SL_INDEX_COUNT ==> CellOk(flBitmap, slBitmap[..], st, f, g)
      {
        var j := 0;
        while j < SL_INDEX_COUNT
          invariant 0 <= j <= SL_INDEX_COUNT && status <= 0
          invariant status == 0 <==> forall f: nat, g: nat {:trigger CellOk(flBitmap, slBitmap[..], st, f, g)} ::
            g < SL_INDEX_COUNT && (f < i || (f == i && g < j)) ==> CellOk(flBitmap, slBitmap[..], st, f, g)
        {
          var bad := CheckCell(i, j);
          status := status + bad;
          j := j + 1;
        }
        i := i + 1;
      }
    }

    /** tlsf_check_pool: integrity_walker over the blocks up to the sentinel counts the wrong prev-free
        flags. */
    method CheckPool() returns (status: int)
      requires Readable() && FIRST in st.blk
      ensures status + Mismatches(st, FIRST, false) == 0
    {
      hide Charted;
      FirstThere(mem[..], blocks[..], st);
      var prevStatus := false;
      status := 0;
      var b := FIRST;
      HeaderReads(mem[..], blocks[..], st, b);
      var size := BlockSize(b);
      while size != 0
        invariant b in st.blk && size == 8 * st.blk[b].units && FIRST <= b && b + 1 < mem.Length
        invariant size == SizeOf(mem[b + 1])
        invariant Mismatches(st, FIRST, false) == Mismatches(st, b, prevStatus) - status
        decreases st.end - b
      {
        HeaderReads(mem[..], blocks[..], st, b);
        assert BlockOk(st, b) && BlockOk(st, Next(st, b));
        HeaderReads(mem[..], blocks[..], st, Next(st, b));
        var thisPrevStatus := BlockIsPrevFree(b);
        var thisStatus := BlockIsFree(b);
        var thisSize := BlockSize(b);
        if prevStatus != thisPrevStatus { status := status - 1; }
        if size != thisSize { status := status - 1; }
        prevStatus := thisStatus;
        b := BlockNext(b);
        size := BlockSize(b);
      }
      HeaderReads(mem[..], blocks[..], st, b);
    }

    /** Both checks pass in every valid state. */
    lemma ValidPasses()
      requires Valid()
      ensures Readable() && Accepted(flBitmap, slBitmap[..], st)
      ensures FIRST in st.blk ==> Mismatches(st, FIRST, false) == 0
    {
      HeapPasses(mem[..], blocks[..], flBitmap, slBitmap[..], st);
    }
  }

  /** Four calls that spoil a heap: a pool of 32 bytes, all of it allocated and then resized to the least
      size malloc refuses. The old pointer comes back, with no heap behind it. */
  method SpoilingCalls(base: nat, mem: array<Word>) returns (heap: Heap, p: nat, q: nat)
    requires base % 8 == 0 && 0 < base && base + 8 * mem.Length <= 0x4000_0000_0000_0000
    requires FIRST + 7 <= mem.Length < 0x1000_0000_0000
    modifies mem
    ensures heap.mem == mem && q == p == PayloadAddress(base, FIRST)
    ensures SizeOf(mem[FIRST + 1]) == 0 && !Represented(mem[..], heap.blocks[..])
  {
    hide Heap.Valid, Mirrors, Tiling, Represented;
    ReallocSpoils();
    heap := new Heap(base, mem);
    var added := heap.AddPool(48);
    p := heap.Malloc(32);
    q := heap.Realloc(p, 0xffff_fff9);
  }
}
