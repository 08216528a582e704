/** The two-level bitmaps: keeping them exact, and searching them. */
module Bitmap {
  import opened Bits
  import opened Mapping
  import opened Memory
  import opened HeapSpec

  // ---------------------------------------------------------------- masks

  lemma {:induction false} BitLowOnes(n: nat, i: nat)
    ensures Bit(Pow2(n) - 1, i) <==> i < n
  {
    if n == 0 {
      BitOfZero(i);
    } else if i > 0 {
      BitLowOnes(n - 1, i - 1);
      assert (Pow2(n) - 1) / 2 == Pow2(n - 1) - 1;
    }
  }

  /** 1U << i */
  lemma OneShifted(i: nat)
    requires i < 32
    ensures Shl32(1, i) == Pow2(i) < Pow2(32) == 0x1_0000_0000
  {
    Pow2Values();
    Pow2Monotone(i + 1, 32);
  }

  /** ~0U << i has exactly the bits from i up. */
  lemma OnesShifted(i: nat, j: nat)
    requires i < 32
    ensures Shl32(0xffff_ffff, i) < 0x1_0000_0000
    ensures Bit(Shl32(0xffff_ffff, i), j) <==> i <= j < 32
  {
    Pow2Values();
    OneShifted(i);
    var p := Pow2(i);
    assert 0xffff_ffff * p == 0x1_0000_0000 * (p - 1) + (0x1_0000_0000 - p);
    DivModUnique(0xffff_ffff * p, 0x1_0000_0000, p - 1, 0x1_0000_0000 - p);
    assert Shl32(0xffff_ffff, i) == Not(32, p - 1);
    BitNot(32, p - 1, j);
    BitLowOnes(i, j);
  }

  /** The lowest set bit of a non-zero 32-bit word. */
  lemma FfsInWord(x: nat)
    requires 0 < x < 0x1_0000_0000
    ensures 0 <= Ffs(x) < 32 && Bit(x, Ffs(x)) && forall i: nat :: i < Ffs(x) ==> !Bit(x, i)
  {
    FfsIsLowest(x);
    BitAtLeast(x, Ffs(x));
    Pow2Values();
    if Ffs(x) >= 32 { Pow2Monotone(32, Ffs(x)); }
  }

  lemma SetBit(x: nat, i: nat)
    requires x < 0x1_0000_0000 && i < 32
    ensures var y := Or(x, Shl32(1, i));
      y < 0x1_0000_0000 && y != 0 && forall j: nat {:trigger Bit(y, j)} :: Bit(y, j) <==> Bit(x, j) || j == i
  {
    OneShifted(i);
    var y := Or(x, Shl32(1, i));
    OrBound(x, Pow2(i), 32);
    forall j: nat ensures Bit(y, j) <==> Bit(x, j) || j == i {
      BitOr(x, Pow2(i), j);
      BitPow2(i, j);
    }
    if y == 0 { assert Bit(y, i); BitOfZero(i); }
  }

  lemma ClearBit(x: nat, i: nat)
    requires x < 0x1_0000_0000 && i < 32
    ensures Shl32(1, i) < Pow2(32)
    ensures var y := And(x, Not(32, Shl32(1, i)));
      y <= x && forall j: nat {:trigger Bit(y, j)} :: Bit(y, j) <==> Bit(x, j) && j != i
  {
    OneShifted(i);
    var mask := Not(32, Shl32(1, i));
    var y := And(x, mask);
    AndBound(x, mask);
    forall j: nat ensures Bit(y, j) <==> Bit(x, j) && j != i {
      BitAnd(x, mask, j);
      BitNot(32, Pow2(i), j);
      BitPow2(i, j);
      if Bit(x, j) { BitIn32(x, j); }
    }
  }

  lemma BitIn32(x: nat, j: nat)
    requires x < 0x1_0000_0000 && Bit(x, j)
    ensures j < 32
  {
    BitAtLeast(x, j);
    Pow2Values();
    if j >= 32 { Pow2Monotone(32, j); }
  }

  // ---------------------------------------------------------------- updates

  /** Filling list (f, j) and setting its two bits keeps the bitmaps exact. */
  lemma FillBits(flBitmap: nat, sl: seq<nat>, lists: seq<seq<int>>, f: nat, j: nat, l: seq<int>)
    requires Bitmapped(flBitmap, sl, lists) && f < FL_INDEX_COUNT && j < SL_INDEX_COUNT && l != []
    ensures Bitmapped(Or(flBitmap, Shl32(1, f)), sl[f := Or(sl[f], Shl32(1, j))], lists[SL_INDEX_COUNT * f + j := l])
  {
    assert SlOk(sl, lists, f);
    SetBit(flBitmap, f);
    SetBit(sl[f], j);
    var sl', lists' := sl[f := Or(sl[f], Shl32(1, j))], lists[SL_INDEX_COUNT * f + j := l];
    forall g | 0 <= g < |sl'| ensures SlOk(sl', lists', g) {
      assert SlOk(sl, lists, g);
      OtherRow(lists, f, j, l, g);
    }
  }

  /** Replacing list (f, j) changes no other list. */
  lemma OtherRow(lists: seq<seq<int>>, f: nat, j: nat, l: seq<int>, g: nat)
    requires |lists| == CLASS_COUNT && f < FL_INDEX_COUNT && j < SL_INDEX_COUNT && g < FL_INDEX_COUNT
    ensures forall i: nat {:trigger ListAt(lists[SL_INDEX_COUNT * f + j := l], g, i)} :: i < SL_INDEX_COUNT ==>
      ListAt(lists[SL_INDEX_COUNT * f + j := l], g, i) == if g == f && i == j then l else ListAt(lists, g, i)
  {
  }

  /** What remove_free_block leaves in the bitmaps when the list (f, j) becomes l. */
  ghost function DrainedSl(sl: seq<nat>, f: nat, j: nat, l: seq<int>): seq<nat>
    requires f < |sl| && j < SL_INDEX_COUNT
  {
    OneShifted(j);
    if l == [] then sl[f := And(sl[f], Not(32, Shl32(1, j)))] else sl
  }

  ghost function DrainedFl(flBitmap: nat, sl: seq<nat>, f: nat, l: seq<int>): nat
    requires f < FL_INDEX_COUNT && f < |sl|
  {
    OneShifted(f);
    if l == [] && sl[f] == 0 then And(flBitmap, Not(32, Shl32(1, f))) else flBitmap
  }

  lemma DrainBits(flBitmap: nat, sl: seq<nat>, lists: seq<seq<int>>, f: nat, j: nat, l: seq<int>)
    requires Bitmapped(flBitmap, sl, lists) && f < FL_INDEX_COUNT && j < SL_INDEX_COUNT
    requires l != [] ==> lists[SL_INDEX_COUNT * f + j] != []
    ensures var sl' := DrainedSl(sl, f, j, l);
      Bitmapped(DrainedFl(flBitmap, sl', f, l), sl', lists[SL_INDEX_COUNT * f + j := l])
  {
    hide Pow2;
    assert SlOk(sl, lists, f);
    var sl' := DrainedSl(sl, f, j, l);
    var lists' := lists[SL_INDEX_COUNT * f + j := l];
    if l == [] {
      ClearBit(sl[f], j);
      ClearBit(flBitmap, f);
    }
    forall g | 0 <= g < |sl'| ensures SlOk(sl', lists', g) {
      assert SlOk(sl, lists, g);
      OtherRow(lists, f, j, l, g);
    }
  }

  // ---------------------------------------------------------------- search

  lemma FirstNonEmptyIs(lists: seq<seq<int>>, k: nat, r: nat)
    requires k <= r <= |lists| && (r < |lists| ==> lists[r] != [])
    requires forall j :: k <= j < r ==> lists[j] == []
    ensures FirstNonEmpty(lists, k) == r
  {
  }

  /** The bits of row fl at or above sl. */
  lemma RowMap(flBitmap: nat, slMaps: seq<nat>, lists: seq<seq<int>>, fl: nat, sl: nat)
    requires Bitmapped(flBitmap, slMaps, lists) && fl < FL_INDEX_COUNT && sl < SL_INDEX_COUNT
    ensures var map' := And(slMaps[fl], Shl32(0xffff_ffff, sl));
      && map' < 0x1_0000_0000
      && (map' != 0 ==>
            0 <= Ffs(map') < 32 && FirstNonEmpty(lists, SL_INDEX_COUNT * fl + sl) == SL_INDEX_COUNT * fl + Ffs(map'))
      && (map' == 0 ==> forall j :: SL_INDEX_COUNT * fl + sl <= j < SL_INDEX_COUNT * (fl + 1) ==> lists[j] == [])
  {
    assert SlOk(slMaps, lists, fl);
    var ones := Shl32(0xffff_ffff, sl);
    var map' := And(slMaps[fl], ones);
    AndBound(slMaps[fl], ones);
    forall j: nat ensures Bit(map', j) <==> Bit(slMaps[fl], j) && sl <= j < 32 {
      BitAnd(slMaps[fl], ones, j);
      OnesShifted(sl, j);
    }
    var first := if map' != 0 then Ffs(map') else 32;
    if map' != 0 { FfsInWord(map'); }
    forall j | SL_INDEX_COUNT * fl + sl <= j < SL_INDEX_COUNT * fl + first ensures lists[j] == [] {
      var i := j - SL_INDEX_COUNT * fl;
      if map' == 0 { BitOfZero(i); }
      assert !Bit(slMaps[fl], i);
      assert ListAt(lists, fl, i) == lists[j];
    }
    if map' != 0 {
      assert ListAt(lists, fl, first) == lists[SL_INDEX_COUNT * fl + first];
      FirstNonEmptyIs(lists, SL_INDEX_COUNT * fl + sl, SL_INDEX_COUNT * fl + first);
    }
  }

  /** The rows above fl that hold anything. */
  lemma HigherRows(flBitmap: nat, slMaps: seq<nat>, lists: seq<seq<int>>, fl: nat)
    requires Bitmapped(flBitmap, slMaps, lists) && fl < FL_INDEX_COUNT
    ensures var map' := And(flBitmap, Shl32(0xffff_ffff, fl + 1));
      && map' < 0x1_0000_0000
      && (map' != 0 ==>
            && fl < Ffs(map') < FL_INDEX_COUNT && 0 < slMaps[Ffs(map')] < 0x1_0000_0000
            && forall j :: SL_INDEX_COUNT * (fl + 1) <= j < SL_INDEX_COUNT * Ffs(map') ==> lists[j] == [])
      && (map' == 0 ==> forall j :: SL_INDEX_COUNT * (fl + 1) <= j < CLASS_COUNT ==> lists[j] == [])
  {
    var ones := Shl32(0xffff_ffff, fl + 1);
    var map' := And(flBitmap, ones);
    AndBound(flBitmap, ones);
    forall g: nat ensures Bit(map', g) <==> g < FL_INDEX_COUNT && slMaps[g] != 0 && fl < g {
      BitAnd(flBitmap, ones, g);
      OnesShifted(fl + 1, g);
    }
    if map' != 0 { FfsInWord(map'); assert SlOk(slMaps, lists, Ffs(map')); }
    var first := if map' != 0 then Ffs(map') else FL_INDEX_COUNT;
    forall j | SL_INDEX_COUNT * (fl + 1) <= j < SL_INDEX_COUNT * first ensures lists[j] == [] {
      var g, i := j / 32, j % 32;
      if map' == 0 { BitOfZero(g); }
      assert !Bit(map', g);
      assert SlOk(slMaps, lists, g);
      BitOfZero(i);
      assert !Bit(slMaps[g], i);
      assert ListAt(lists, g, i) == lists[j];
    }
  }

  /** search_suitable_block over the bitmaps finds what the linear scan of the lists finds. */
  lemma SearchIsScan(flBitmap: nat, slMaps: seq<nat>, lists: seq<seq<int>>, fl: nat, sl: nat)
    requires Bitmapped(flBitmap, slMaps, lists) && fl < FL_INDEX_COUNT && sl < SL_INDEX_COUNT
    ensures var row := And(slMaps[fl], Shl32(0xffff_ffff, sl));
      var above := And(flBitmap, Shl32(0xffff_ffff, fl + 1));
      var scan := FirstNonEmpty(lists, SL_INDEX_COUNT * fl + sl);
      && (row != 0 ==> 0 <= Ffs(row) < 32 && scan == SL_INDEX_COUNT * fl + Ffs(row))
      && (row == 0 && above == 0 ==> scan == CLASS_COUNT)
      && (row == 0 && above != 0 ==>
            fl < Ffs(above) < FL_INDEX_COUNT && 0 <= Ffs(slMaps[Ffs(above)]) < 32
            && scan == SL_INDEX_COUNT * Ffs(above) + Ffs(slMaps[Ffs(above)]))
  {
    RowMap(flBitmap, slMaps, lists, fl, sl);
    HigherRows(flBitmap, slMaps, lists, fl);
    var row := And(slMaps[fl], Shl32(0xffff_ffff, sl));
    var above := And(flBitmap, Shl32(0xffff_ffff, fl + 1));
    if row == 0 {
      if above == 0 {
        FirstNonEmptyIs(lists, SL_INDEX_COUNT * fl + sl, CLASS_COUNT);
      } else {
        var f := Ffs(above);
        assert SlOk(slMaps, lists, f);
        FfsInWord(slMaps[f]);
        var j := Ffs(slMaps[f]);
        assert ListAt(lists, f, j) == lists[SL_INDEX_COUNT * f + j];
        forall i | SL_INDEX_COUNT * f <= i < SL_INDEX_COUNT * f + j ensures lists[i] == [] {
          assert !Bit(slMaps[f], i - SL_INDEX_COUNT * f);
          assert ListAt(lists, f, i - SL_INDEX_COUNT * f) == lists[i];
        }
        FirstNonEmptyIs(lists, SL_INDEX_COUNT * fl + sl, SL_INDEX_COUNT * f + j);
      }
    }
  }
}
