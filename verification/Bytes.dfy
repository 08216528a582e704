/** The bytes of little-endian 64-bit words. */
module Bytes {
  import opened Bits

  /** Byte j of a word, lowest address first. */
  function Byte(w: nat, j: nat): nat {
    if j == 0 then w % 256 else Byte(w / 256, j - 1)
  }

  /** The word whose lowest n bytes are those of `src` and whose other bytes are those of `dst`. */
  function MergeLow(dst: nat, src: nat, n: nat): nat {
    if n == 0 then dst else 256 * MergeLow(dst / 256, src / 256, n - 1) + src % 256
  }

  lemma {:induction false} MergeLowBytes(dst: nat, src: nat, n: nat, j: nat)
    ensures Byte(MergeLow(dst, src, n), j) == Byte(if j < n then src else dst, j)
  {
    if n > 0 {
      var m := MergeLow(dst, src, n);
      assert m / 256 == MergeLow(dst / 256, src / 256, n - 1) && m % 256 == src % 256;
      if j > 0 { MergeLowBytes(dst / 256, src / 256, n - 1, j - 1); }
    }
  }

  function Pow256(n: nat): nat {
    if n == 0 then 1 else 256 * Pow256(n - 1)
  }

  lemma {:induction false} MergeLowFits(dst: nat, src: nat, n: nat, size: nat)
    requires dst < Pow256(size) && src < Pow256(size) && n <= size
    ensures MergeLow(dst, src, n) < Pow256(size)
  {
    if n > 0 { MergeLowFits(dst / 256, src / 256, n - 1, size - 1); }
  }

  lemma WordIsEightBytes()
    ensures Pow256(8) == WORD_LIMIT
  {
    assert Pow256(2) == 0x1_0000;
    assert Pow256(4) == 0x1_0000_0000;
    assert Pow256(6) == 0x1_0000_0000_0000;
  }
}
