/** What tlsf_check and tlsf_check_pool accept, of memory whose headers tile the pool and whose lists are
    linked but whose flags, classes and bitmaps may be wrong. */
module Checking {
  import opened Bits
  import opened Mapping
  import opened FreeList
  import opened Blocks
  import opened HeapTheorems
  import opened Memory
  import opened Bitmap

  ghost predicate Headed(m: seq<Word>, s: State, b: int)
    requires b in s.blk
  {
    0 <= b && b + 1 < |m| && m[b + 1] == Tag(s.blk[b])
  }

  /** The blocks on list k are blocks of the pool. */
  ghost predicate FromPool(s: State, k: nat)
    requires k < |s.lists|
  {
    forall b :: b in s.lists[k] ==> b in s.blk && b != s.end
  }

  /** Memory m holds the headers of s, and the heads and links its lists. */
  ghost predicate Charted(m: seq<Word>, heads: seq<int>, s: State) {
    && |heads| == CLASS_COUNT && |s.lists| == CLASS_COUNT && |m| < 0x1000_0000_0000 && Tiling(s)
    && (forall b {:trigger Headed(m, s, b)} :: b in s.blk ==> Headed(m, s, b))
    && (forall k {:trigger Threaded(m, heads, s.lists, k)} :: 0 <= k < CLASS_COUNT ==> Threaded(m, heads, s.lists, k))
    && (forall k {:trigger FromPool(s, k)} :: 0 <= k < CLASS_COUNT ==> FromPool(s, k))
  }

  lemma HeaderReads(m: seq<Word>, heads: seq<int>, s: State, b: int)
    requires Charted(m, heads, s) && b in s.blk
    ensures FIRST <= b && b + 1 < |m| && SizeOf(m[b + 1]) == 8 * s.blk[b].units
    ensures FreeBit(m[b + 1]) == s.blk[b].free && PrevFreeBit(m[b + 1]) == s.blk[b].prevFree
    ensures b != s.end ==> Next(s, b) in s.blk && s.blk[b].units >= 3 && Next(s, b) > b
    ensures b == s.end <==> SizeOf(m[b + 1]) == 0
  {
    assert BlockOk(s, b) && Headed(m, s, b);
    TagReads(s.blk[b]);
  }

  // ---------------------------------------------------------------- tlsf_check_pool

  /** How many blocks before the sentinel, from b on, have a prev-free flag other than the status of the
      block before them; `prev` is that status for b. */
  ghost function Mismatches(s: State, b: int, prev: bool): nat
    requires Tiling(s) && b in s.blk
    decreases s.end - b
  {
    assert BlockOk(s, b);
    if b == s.end then 0
    else
      assert BlockOk(s, Next(s, b));
      (if prev != s.blk[b].prevFree then 1 else 0) + Mismatches(s, Next(s, b), s.blk[b].free)
  }

  /** The flag of the successor of b is right, or its successor is the sentinel. */
  ghost predicate FlagSeen(s: State, b: int)
    requires b in s.blk
  {
    b != s.end && Next(s, b) != s.end ==> Next(s, b) in s.blk && s.blk[Next(s, b)].prevFree == s.blk[b].free
  }

  lemma {:induction false} NoMismatch(s: State, b: int, prev: bool)
    requires Tiling(s) && b in s.blk
    ensures Mismatches(s, b, prev) == 0 <==>
      && (b != s.end ==> s.blk[b].prevFree == prev)
      && forall x {:trigger FlagSeen(s, x)} :: x in s.blk && b <= x ==> FlagSeen(s, x)
    decreases s.end - b
  {
    assert BlockOk(s, b);
    if b == s.end {
      forall x | x in s.blk && b <= x ensures FlagSeen(s, x) { assert BlockOk(s, x); }
    } else {
      var n := Next(s, b);
      assert BlockOk(s, n);
      NoMismatch(s, n, s.blk[b].free);
      forall x | x in s.blk && b < x ensures n <= x { assert Ordered(s, b, x); }
      assert FlagSeen(s, b) <==> n == s.end || s.blk[n].prevFree == s.blk[b].free;
    }
  }

  // ---------------------------------------------------------------- tlsf_check

  /** What is checked of block b on list k. */
  ghost predicate ListedOk(s: State, k: nat, b: int) {
    && b in s.blk && b != s.end && s.blk[b].free && !s.blk[b].prevFree && UnitClass(s.blk[b].units) == k
    && Next(s, b) in s.blk && !s.blk[Next(s, b)].free && s.blk[Next(s, b)].prevFree
  }

  /** What is checked of the list of class (i, j) and its two bits. */
  ghost predicate CellOk(flMap: nat, slMap: seq<nat>, s: State, i: nat, j: nat)
    requires i < |slMap|
  {
    var l := ListAt(s.lists, i, j);
    && (Bit(slMap[i], j) ==> Bit(flMap, i)) && (Bit(slMap[i], j) <==> l != [])
    && forall b :: b in l ==> ListedOk(s, SL_INDEX_COUNT * i + j, b)
  }

  ghost predicate Accepted(flMap: nat, slMap: seq<nat>, s: State) {
    && |slMap| == FL_INDEX_COUNT
    && forall i: nat, j: nat {:trigger CellOk(flMap, slMap, s, i, j)} ::
         i < FL_INDEX_COUNT && j < SL_INDEX_COUNT ==> CellOk(flMap, slMap, s, i, j)
  }

  /** x & (1U << i) tests bit i. */
  lemma BitTest(x: nat, i: nat)
    requires x < 0x1_0000_0000 && i < 32
    ensures And(x, Shl32(1, i)) != 0 <==> Bit(x, i)
  {
    OneShifted(i);
    var y := And(x, Shl32(1, i));
    AndBound(x, Shl32(1, i));
    BitAnd(x, Shl32(1, i), i);
    BitPow2(i, i);
    if y != 0 {
      FfsInWord(y);
      BitAnd(x, Shl32(1, i), Ffs(y));
      BitPow2(i, Ffs(y));
    } else {
      BitOfZero(i);
    }
  }

  // ---------------------------------------------------------------- what the checks are worth

  /** What neither check looks at: first-level bits of empty rows, free blocks on no list, and the flag of
      the sentinel. */
  ghost predicate Unseen(flMap: nat, slMap: seq<nat>, s: State) {
    && (forall f: nat {:trigger Bit(flMap, f)} :: Bit(flMap, f) ==> f < |slMap| && slMap[f] != 0)
    && (forall b {:trigger OnList(s, b, {})} :: b in s.blk ==> OnList(s, b, {}))
    && (forall b {:trigger FlagOk(s, b)} :: b in s.blk && b != s.end && Next(s, b) == s.end ==> FlagOk(s, b))
  }

  /** The bitmaps have the widths of the code. */
  predicate Words(flMap: nat, slMap: seq<nat>) {
    && flMap < 0x1_0000_0000 && |slMap| == FL_INDEX_COUNT
    && forall f :: 0 <= f < |slMap| ==> slMap[f] < 0x1_0000_0000
  }

  /** A pool is well formed, with exact bitmaps, if and only if both checks pass and what they do not look
      at is right. */
  lemma ChecksExact(m: seq<Word>, heads: seq<int>, flMap: nat, slMap: seq<nat>, s: State)
    requires Charted(m, heads, s) && s.blk != map[] && Words(flMap, slMap)
    ensures FIRST in s.blk
    ensures Inv(s) && Bitmapped(flMap, slMap, s.lists) <==>
      Accepted(flMap, slMap, s) && Mismatches(s, FIRST, false) == 0 && Unseen(flMap, slMap, s)
  {
    hide Bitmapped, Accepted, Charted, Inv, Unseen, Mismatches;
    FirstThere(m, heads, s);
    if Inv(s) && Bitmapped(flMap, slMap, s.lists) { GoodAccepted(flMap, slMap, s); }
    if Accepted(flMap, slMap, s) && Mismatches(s, FIRST, false) == 0 && Unseen(flMap, slMap, s) {
      AcceptedInv(m, heads, flMap, slMap, s);
      AcceptedBits(flMap, slMap, s);
    }
  }

  lemma FirstThere(m: seq<Word>, heads: seq<int>, s: State)
    requires Charted(m, heads, s) && s.blk != map[]
    ensures FIRST in s.blk && Tiling(s) && |s.lists| == CLASS_COUNT
  {
  }

  /** Every heap between calls can be checked, and passes. */
  lemma HeapPasses(m: seq<Word>, heads: seq<int>, flMap: nat, slMap: seq<nat>, s: State)
    requires Inv(s) && Mirrors(m, heads, s) && Bitmapped(flMap, slMap, s.lists)
    ensures Charted(m, heads, s) && Words(flMap, slMap) && Accepted(flMap, slMap, s)
    ensures FIRST in s.blk ==> Mismatches(s, FIRST, false) == 0
  {
    forall b | b in s.blk ensures Headed(m, s, b) { assert Tagged(m, s, b); }
    forall k | 0 <= k < CLASS_COUNT ensures FromPool(s, k) {
      assert ListOk(s, k, {});
      forall b | b in s.lists[k] ensures b in s.blk && b != s.end {
        assert MemberOk(s, k, b, {});
        assert BlockOk(s, b);
      }
    }
    forall f | 0 <= f < |slMap| ensures slMap[f] < 0x1_0000_0000 { assert SlOk(slMap, s.lists, f); }
    forall i: nat, j: nat | i < FL_INDEX_COUNT && j < SL_INDEX_COUNT ensures CellOk(flMap, slMap, s, i, j) {
      GoodCell(flMap, slMap, s, i, j);
    }
    if FIRST in s.blk { GoodAccepted(flMap, slMap, s); }
  }

  lemma GoodAccepted(flMap: nat, slMap: seq<nat>, s: State)
    requires Inv(s) && Bitmapped(flMap, slMap, s.lists) && FIRST in s.blk
    ensures Accepted(flMap, slMap, s) && Mismatches(s, FIRST, false) == 0 && Unseen(flMap, slMap, s)
  {
    forall i: nat, j: nat | i < FL_INDEX_COUNT && j < SL_INDEX_COUNT ensures CellOk(flMap, slMap, s, i, j) {
      GoodCell(flMap, slMap, s, i, j);
    }
    NoMismatch(s, FIRST, false);
    forall x | x in s.blk && FIRST <= x ensures FlagSeen(s, x) { assert FlagOk(s, x); }
    assert BlockOk(s, FIRST);
  }

  lemma GoodCell(flMap: nat, slMap: seq<nat>, s: State, i: nat, j: nat)
    requires Inv(s) && Bitmapped(flMap, slMap, s.lists) && i < FL_INDEX_COUNT && j < SL_INDEX_COUNT
    ensures CellOk(flMap, slMap, s, i, j)
  {
    var k := SL_INDEX_COUNT * i + j;
    assert SlOk(slMap, s.lists, i) && ListOk(s, k, {});
    if Bit(slMap[i], j) && slMap[i] == 0 { BitOfZero(j); }
    forall b | b in s.lists[k] ensures ListedOk(s, k, b) {
      assert MemberOk(s, k, b, {});
      assert BlockOk(s, b) && NotTwoFree(s, b) && FlagOk(s, b);
      NotPrevFree(s, b);
    }
  }

  lemma ListedIs(flMap: nat, slMap: seq<nat>, s: State, k: nat, b: int)
    requires Accepted(flMap, slMap, s) && |s.lists| == CLASS_COUNT && k < CLASS_COUNT && b in s.lists[k]
    ensures ListedOk(s, k, b)
  {
    assert CellOk(flMap, slMap, s, k / SL_INDEX_COUNT, k % SL_INDEX_COUNT);
  }

  lemma AcceptedInv(m: seq<Word>, heads: seq<int>, flMap: nat, slMap: seq<nat>, s: State)
    requires Charted(m, heads, s) && FIRST in s.blk
    requires Accepted(flMap, slMap, s) && Mismatches(s, FIRST, false) == 0 && Unseen(flMap, slMap, s)
    ensures Inv(s)
  {
    hide Accepted;
    forall k | 0 <= k < |s.lists| ensures ListOk(s, k, {}) {
      assert Threaded(m, heads, s.lists, k);
      forall i, j | 0 <= i < j < |s.lists[k]| ensures s.lists[k][i] != s.lists[k][j] { assert Apart(s.lists[k], i, j); }
      forall b | b in s.lists[k] ensures MemberOk(s, k, b, {}) { ListedIs(flMap, slMap, s, k, b); }
    }
    NoMismatch(s, FIRST, false);
    forall b | b in s.blk ensures FlagOk(s, b) && NotTwoFree(s, b) {
      assert BlockOk(s, b) && OnList(s, b, {}) && FlagSeen(s, b);
      if s.blk[b].free { ListedIs(flMap, slMap, s, UnitClass(s.blk[b].units), b); }
    }
    assert BlockOk(s, FIRST);
  }

  lemma AcceptedBits(flMap: nat, slMap: seq<nat>, s: State)
    requires Accepted(flMap, slMap, s) && Unseen(flMap, slMap, s) && Words(flMap, slMap) && |s.lists| == CLASS_COUNT
    ensures Bitmapped(flMap, slMap, s.lists)
  {
    forall f: nat | f < |slMap| ensures SlOk(slMap, s.lists, f) && (slMap[f] != 0 ==> Bit(flMap, f)) {
      forall j: nat | j < SL_INDEX_COUNT ensures Bit(slMap[f], j) <==> ListAt(s.lists, f, j) != [] {
        assert CellOk(flMap, slMap, s, f, j);
      }
      if slMap[f] != 0 {
        FfsInWord(slMap[f]);
        assert CellOk(flMap, slMap, s, f, Ffs(slMap[f]));
      }
    }
  }

  /** A first-level bit set for an empty row passes both checks, on any heap. */
  lemma StrayBit(flMap: nat, flMap': nat, slMap: seq<nat>, s: State, f: nat)
    requires Accepted(flMap, slMap, s) && f < |slMap| && slMap[f] == 0 && Bit(flMap', f)
    requires forall g: nat {:trigger Bit(flMap', g)} :: g != f ==> Bit(flMap', g) == Bit(flMap, g)
    ensures Accepted(flMap', slMap, s) && !Bitmapped(flMap', slMap, s.lists)
  {
    forall i: nat, j: nat | i < FL_INDEX_COUNT && j < SL_INDEX_COUNT ensures CellOk(flMap', slMap, s, i, j) {
      assert CellOk(flMap, slMap, s, i, j);
      BitOfZero(j);
    }
  }
}
