/** Doubly linked free lists threaded through the words of memory. A block at word b keeps
    next_free in word b + 2 and prev_free in word b + 3. The null block, which ends every
    list and whose own links are scratch space, is at word 0. */
module FreeList {
  import opened Bits

  const NULL_BLOCK: int := 0

  /** Blocks are at least four words apart and clear of the null block and the end of memory. */
  ghost predicate Spaced(m: seq<Word>, list: seq<int>) {
    && (forall i :: 0 <= i < |list| ==> 4 <= list[i] < |m| - 3)
    && (forall i, j :: 0 <= i < |list| && 0 <= j < |list| && i != j ==> Apart(list, i, j))
  }

  predicate Apart(list: seq<int>, i: nat, j: nat)
    requires i < |list| && j < |list|
  {
    list[i] + 4 <= list[j] || list[j] + 4 <= list[i]
  }

  function At(list: seq<int>, i: int): int {
    if 0 <= i < |list| then list[i] else NULL_BLOCK
  }

  /** The words of `m` link exactly `list`, in order, from `head`. */
  ghost predicate Linked(m: seq<Word>, head: int, list: seq<int>) {
    && Spaced(m, list)
    && |m| >= 4
    && head == At(list, 0)
    && (forall i :: 0 <= i < |list| ==> Node(m, list, i))
  }

  /** The links of the i-th block of the list. */
  ghost predicate Node(m: seq<Word>, list: seq<int>, i: nat)
    requires i < |list| && 0 <= list[i] && list[i] + 3 < |m|
  {
    m[list[i] + 2] == At(list, i + 1) && m[list[i] + 3] == At(list, i - 1)
  }

  /** remove_free_block's two stores. */
  ghost function Unlink(m: seq<Word>, b: int): seq<Word>
    requires 0 <= b && b + 3 < |m| && m[b + 2] + 3 < |m| && m[b + 3] + 2 < |m|
  {
    var prev, next := m[b + 3], m[b + 2];
    m[next + 3 := prev][prev + 2 := next]
  }

  /** insert_free_block's three stores. */
  ghost function LinkFront(m: seq<Word>, head: int, b: int): seq<Word>
    requires 0 <= b && b + 3 < |m| && 0 <= head && head + 3 < |m| && b < WORD_LIMIT && head < WORD_LIMIT
  {
    m[b + 2 := head][b + 3 := NULL_BLOCK][head + 3 := b]
  }

  function Without(list: seq<int>, i: nat): (r: seq<int>)
    requires i < |list|
  {
    list[..i] + list[i + 1..]
  }

  lemma UnlinkRemoves(m: seq<Word>, head: int, list: seq<int>, i: nat)
    requires Linked(m, head, list) && i < |list|
    ensures m[list[i] + 2] + 3 < |m| && m[list[i] + 3] + 2 < |m|
    ensures Linked(Unlink(m, list[i]), if head == list[i] then m[list[i] + 2] else head, Without(list, i))
    ensures head == list[i] <==> i == 0
  {
    var b := list[i];
    var rest := Without(list, i);
    assert Node(m, list, i);
    var m' := Unlink(m, b);
    forall j | 0 <= j < |rest|
      ensures Node(m', rest, j)
    {
      var o := if j < i then j else j + 1;
      assert rest[j] == list[o] && Apart(list, o, i) && Node(m, list, o);
      if i > 0 && o != i - 1 { assert Apart(list, o, i - 1); }
      if i + 1 < |list| && o != i + 1 { assert Apart(list, o, i + 1); }
    }
    forall j, k | 0 <= j < |rest| && 0 <= k < |rest| && j != k ensures Apart(rest, j, k) {
      assert Apart(list, if j < i then j else j + 1, if k < i then k else k + 1);
    }
    if i > 0 { assert Apart(list, 0, i); }
  }

  lemma LinkFrontAdds(m: seq<Word>, head: int, list: seq<int>, b: int)
    requires Linked(m, head, list) && Spaced(m, [b] + list) && |m| < WORD_LIMIT
    ensures 0 <= b && b + 3 < |m| && 0 <= head && head + 3 < |m|
    ensures Linked(LinkFront(m, head, b), b, [b] + list)
  {
    var all := [b] + list;
    assert all[0] == b;
    var m' := LinkFront(m, head, b);
    forall i | 0 <= i < |all|
      ensures Node(m', all, i)
    {
      if i > 0 {
        assert all[i] == list[i - 1] && Apart(all, i, 0) && Node(m, list, i - 1);
        if i > 1 { assert list[0] == all[1] && Apart(all, i, 1); }
      } else if |list| > 0 {
        assert head == all[1] && Apart(all, 0, 1);
      }
    }
  }

  /** A list is unaffected by stores outside its link words. */
  lemma LinkedFrame(m: seq<Word>, m': seq<Word>, head: int, list: seq<int>)
    requires Linked(m, head, list) && |m'| == |m|
    requires forall i :: 0 <= i < |list| ==> m'[list[i] + 2] == m[list[i] + 2] && m'[list[i] + 3] == m[list[i] + 3]
    ensures Linked(m', head, list)
  {
    forall i | 0 <= i < |list| ensures Node(m', list, i) { assert Node(m, list, i); }
  }
}
