/** The iterative quicksort with an explicit stack, over an array of whole elements. */
module Qsort {
  import opened Bits

  // ---------------------------------------------------------------- orders

  /** The result of the caller's comparator. */
  function Compare<T>(cmp: (T, T) -> int, x: T, y: T): int {
    cmp(x, y)
  }

  /** A comparator is consistent when its sign is that of a total preorder. */
  ghost predicate Consistent<T(!new)>(cmp: (T, T) -> int) {
    && (forall x, y {:trigger Compare(cmp, x, y)} ::
          && (Compare(cmp, x, y) <= 0 <==> Compare(cmp, y, x) >= 0)
          && (Compare(cmp, x, y) < 0 <==> Compare(cmp, y, x) > 0))
    && (forall x, y, z {:trigger Compare(cmp, x, y), Compare(cmp, y, z)} ::
          Compare(cmp, x, y) <= 0 && Compare(cmp, y, z) <= 0 ==> Compare(cmp, x, z) <= 0)
  }

  ghost predicate SortedIn<T(!new)>(cmp: (T, T) -> int, s: seq<T>, lo: int, hi: int) {
    forall i, j {:trigger s[i], s[j]} :: 0 <= lo <= i < j <= hi < |s| ==> Compare(cmp, s[i], s[j]) <= 0
  }

  /** s' is s with the elements at lo..hi rearranged. */
  ghost predicate Permutes<T(!new)>(s: seq<T>, s': seq<T>, lo: int, hi: int) {
    && |s'| == |s| && SameItems(s', s)
    && forall i {:trigger s'[i]} {:trigger s[i]} :: 0 <= i < |s| && !(lo <= i <= hi) ==> s'[i] == s[i]
  }

  /** s' is s with the elements at lo..hi sorted. */
  ghost predicate SortsTo<T(!new)>(cmp: (T, T) -> int, s: seq<T>, s': seq<T>, lo: int, hi: int) {
    Permutes(s, s', lo, hi) && SortedIn(cmp, s', lo, hi)
  }

  ghost predicate SameItems<T(!new)>(s: seq<T>, t: seq<T>) {
    multiset(s) == multiset(t)
  }

  lemma MiddleSameItems<T(!new)>(a: seq<T>, b: seq<T>, b': seq<T>, c: seq<T>)
    requires multiset(a + b + c) == multiset(a + b' + c)
    ensures multiset(b) == multiset(b')
  {
    assert multiset(a + b + c) == multiset(a) + multiset(b) + multiset(c);
    assert multiset(a + b' + c) == multiset(a) + multiset(b') + multiset(c);
    forall x ensures multiset(b)[x] == multiset(b')[x] {
      assert (multiset(a) + multiset(b) + multiset(c))[x] == (multiset(a) + multiset(b') + multiset(c))[x];
    }
  }

  lemma ItemOfSame<T(!new)>(b: seq<T>, b': seq<T>, k: int)
    requires multiset(b) == multiset(b') && 0 <= k < |b'|
    ensures exists j :: 0 <= j < |b| && b[j] == b'[k]
  {
    assert b'[k] in multiset(b');
    assert b'[k] in multiset(b);
    assert b'[k] in b;
  }

  /** Every element of a rearranged stretch was in the stretch. */
  lemma PermutesWithin<T(!new)>(s: seq<T>, s': seq<T>, lo: int, hi: int, k: int)
    requires Permutes(s, s', lo, hi) && 0 <= lo <= k <= hi < |s|
    ensures exists j :: lo <= j <= hi && s[j] == s'[k]
  {
    var a, b, c, b' := s[..lo], s[lo..hi + 1], s[hi + 1..], s'[lo..hi + 1];
    assert s == a + b + c;
    assert s' == a + b' + c;
    MiddleSameItems(a, b, b', c);
    ItemOfSame(b, b', k - lo);
    var j :| 0 <= j < |b| && b[j] == b'[k - lo];
    assert s[lo + j] == s'[k];
  }

  lemma PermutesBack<T(!new)>(s: seq<T>, s': seq<T>, lo: int, hi: int)
    requires Permutes(s, s', lo, hi)
    ensures Permutes(s', s, lo, hi)
  {
  }

  // ---------------------------------------------------------------- the stack

  datatype Range = Range(lo: int, hi: int)

  /** However the ranges on the stack are sorted, from the top down, the result is sorted. */
  ghost predicate Sortable<T(!new)>(cmp: (T, T) -> int, s: seq<T>, stack: seq<Range>)
    decreases |stack|
  {
    if stack == [] then SortedIn(cmp, s, 0, |s| - 1)
    else
      var e := stack[|stack| - 1];
      forall s' {:trigger SortsTo(cmp, s, s', e.lo, e.hi)} ::
        SortsTo(cmp, s, s', e.lo, e.hi) ==> Sortable(cmp, s', stack[..|stack| - 1])
  }

  ghost predicate AllAtMost<T(!new)>(cmp: (T, T) -> int, s: seq<T>, lo: int, hi: int, p: T) {
    forall k {:trigger s[k]} :: 0 <= k < |s| && lo <= k <= hi ==> Compare(cmp, s[k], p) <= 0
  }

  ghost predicate AllAtLeast<T(!new)>(cmp: (T, T) -> int, s: seq<T>, lo: int, hi: int, p: T) {
    forall k {:trigger s[k]} :: 0 <= k < |s| && lo <= k <= hi ==> Compare(cmp, p, s[k]) <= 0
  }

  lemma AtMostPermuted<T(!new)>(cmp: (T, T) -> int, s: seq<T>, s': seq<T>, lo: int, hi: int, p: T)
    requires Permutes(s, s', lo, hi) && AllAtMost(cmp, s, lo, hi, p) && 0 <= lo && hi < |s|
    ensures AllAtMost(cmp, s', lo, hi, p)
  {
    forall k | 0 <= k < |s'| && lo <= k <= hi ensures Compare(cmp, s'[k], p) <= 0 { PermutesWithin(s, s', lo, hi, k); }
  }

  lemma AtLeastPermuted<T(!new)>(cmp: (T, T) -> int, s: seq<T>, s': seq<T>, lo: int, hi: int, p: T)
    requires Permutes(s, s', lo, hi) && AllAtLeast(cmp, s, lo, hi, p) && 0 <= lo && hi < |s|
    ensures AllAtLeast(cmp, s', lo, hi, p)
  {
    forall k | 0 <= k < |s'| && lo <= k <= hi ensures Compare(cmp, p, s'[k]) <= 0 { PermutesWithin(s, s', lo, hi, k); }
  }

  /** The state after partitioning lo..hi: elements at most the pivot up to j, at least the
      pivot from i on, where the two parts may share one slot. */
  ghost predicate Partitioned<T(!new)>(cmp: (T, T) -> int, s: seq<T>, lo: int, j: int, i: int, hi: int, p: T) {
    && 0 <= lo <= j <= i <= hi < |s| && i <= j + 1
    && AllAtMost(cmp, s, lo, j, p) && AllAtLeast(cmp, s, i, hi, p)
  }

  /** Sorting the right part and then the left one sorts the whole, shared slot or not. */
  lemma SortRightThenLeft<T(!new)>(cmp: (T, T) -> int, s: seq<T>, s1: seq<T>, s2: seq<T>, lo: int, j: int, i: int,
      hi: int, p: T)
    requires Consistent(cmp) && Partitioned(cmp, s, lo, j, i, hi, p)
    requires SortsTo(cmp, s, s1, i, hi) && SortsTo(cmp, s1, s2, lo, j)
    ensures SortedIn(cmp, s2, lo, hi)
  {
    hide Compare, SameItems;
    AtLeastPermuted(cmp, s, s1, i, hi, p);
    if i == j {
      PermutesBack(s, s1, i, hi);
      PermutesWithin(s1, s, i, hi, i);
      var k :| i <= k <= hi && s1[k] == s[i];
      assert Compare(cmp, s1[i], s1[k]) <= 0 || i == k;
    }
    assert AllAtMost(cmp, s1, lo, j, p);
    AtMostPermuted(cmp, s1, s2, lo, j, p);
    forall u, v | lo <= u < v <= hi ensures Compare(cmp, s2[u], s2[v]) <= 0 {
      if v > j {
        assert s2[v] == s1[v];
        if u > j { assert s2[u] == s1[u]; }
      }
    }
  }

  /** Sorting the left part and then the right one sorts the whole, shared slot or not. */
  lemma SortLeftThenRight<T(!new)>(cmp: (T, T) -> int, s: seq<T>, s1: seq<T>, s2: seq<T>, lo: int, j: int, i: int,
      hi: int, p: T)
    requires Consistent(cmp) && Partitioned(cmp, s, lo, j, i, hi, p)
    requires SortsTo(cmp, s, s1, lo, j) && SortsTo(cmp, s1, s2, i, hi)
    ensures SortedIn(cmp, s2, lo, hi)
  {
    AtMostPermuted(cmp, s, s1, lo, j, p);
    if i == j {
      PermutesBack(s, s1, lo, j);
      PermutesWithin(s1, s, lo, j, j);
      var k :| lo <= k <= j && s1[k] == s[j];
      assert Compare(cmp, s1[k], s1[j]) <= 0 || k == j;
    }
    assert AllAtLeast(cmp, s1, i, hi, p);
    AtLeastPermuted(cmp, s1, s2, i, hi, p);
    FrontKept(cmp, s1, s2, lo, i, j, hi, p);
    JoinSorted(cmp, s2, lo, i, hi, p);
  }

  /** Rearranging i..hi leaves what lies before it sorted and at most the pivot. */
  lemma FrontKept<T(!new)>(cmp: (T, T) -> int, s: seq<T>, s': seq<T>, lo: int, i: int, j: int, hi: int, p: T)
    requires Permutes(s, s', i, hi) && 0 <= lo && i <= j + 1 && j < |s|
    requires SortedIn(cmp, s, lo, j) && AllAtMost(cmp, s, lo, j, p)
    ensures SortedIn(cmp, s', lo, i - 1) && AllAtMost(cmp, s', lo, i - 1, p)
  {
    hide Compare;
    forall u, v | lo <= u < v <= i - 1 ensures Compare(cmp, s'[u], s'[v]) <= 0 {
      assert s'[u] == s[u] && s'[v] == s[v];
    }
    forall u | lo <= u <= i - 1 ensures Compare(cmp, s'[u], p) <= 0 {
      assert s'[u] == s[u];
    }
  }

  /** Two sorted parts on either side of the pivot are sorted together. */
  lemma JoinSorted<T(!new)>(cmp: (T, T) -> int, s: seq<T>, lo: int, m: int, hi: int, p: T)
    requires Consistent(cmp) && 0 <= lo <= m <= hi + 1 <= |s|
    requires SortedIn(cmp, s, lo, m - 1) && SortedIn(cmp, s, m, hi)
    requires AllAtMost(cmp, s, lo, m - 1, p) && AllAtLeast(cmp, s, m, hi, p)
    ensures SortedIn(cmp, s, lo, hi)
  {
    hide Compare;
    forall u, v | lo <= u < v <= hi ensures Compare(cmp, s[u], s[v]) <= 0 {
      if u < m <= v { assert Compare(cmp, s[u], p) <= 0 && Compare(cmp, p, s[v]) <= 0; }
    }
  }

  /** Replacing the top range by its two parts, in either order, keeps the stack sortable. */
  lemma PartsSortable<T(!new)>(cmp: (T, T) -> int, s: seq<T>, s': seq<T>, rest: seq<Range>, lo: int, j: int,
      i: int, hi: int, p: T, leftFirst: bool)
    requires Consistent(cmp) && Sortable(cmp, s, rest + [Range(lo, hi)])
    requires Permutes(s, s', lo, hi) && Partitioned(cmp, s', lo, j, i, hi, p)
    ensures Sortable(cmp, s', rest + if leftFirst then [Range(lo, j), Range(i, hi)] else [Range(i, hi), Range(lo, j)])
  {
    var e, x := Range(lo, hi), if leftFirst then Range(lo, j) else Range(i, hi);
    var y := if leftFirst then Range(i, hi) else Range(lo, j);
    var stack := rest + if leftFirst then [Range(lo, j), Range(i, hi)] else [Range(i, hi), Range(lo, j)];
    assert stack[..|stack| - 1] == rest + [x] && stack[|stack| - 1] == y;
    forall s1 | SortsTo(cmp, s', s1, y.lo, y.hi) ensures Sortable(cmp, s1, rest + [x]) {
      assert (rest + [x])[..|rest|] == rest && (rest + [x])[|rest|] == x;
      forall s2 | SortsTo(cmp, s1, s2, x.lo, x.hi) ensures Sortable(cmp, s2, rest) {
        if leftFirst {
          SortRightThenLeft(cmp, s', s1, s2, lo, j, i, hi, p);
        } else {
          SortLeftThenRight(cmp, s', s1, s2, lo, j, i, hi, p);
        }
        assert SortsTo(cmp, s, s2, lo, hi);
        assert (rest + [e])[..|rest|] == rest && (rest + [e])[|rest|] == e;
      }
    }
  }

  /** A range of one element, or none, may be left off the stack. */
  lemma TrivialTop<T(!new)>(cmp: (T, T) -> int, s: seq<T>, rest: seq<Range>, e: Range)
    requires Sortable(cmp, s, rest + [e]) && e.hi <= e.lo
    ensures Sortable(cmp, s, rest)
  {
    assert SortsTo(cmp, s, s, e.lo, e.hi);
    assert (rest + [e])[..|rest|] == rest && (rest + [e])[|rest|] == e;
  }

  // ---------------------------------------------------------------- insertion sort

  /** The state while an element is on its way down: the slot at `hole` stands for `tmp`, the
      elements from there to `top` have moved up by one and are all greater. */
  ghost predicate Shifted<T(!new)>(cmp: (T, T) -> int, s: seq<T>, m: seq<T>, lo: int, hole: int, top: int, tmp: T) {
    && 0 <= lo <= hole <= top < |s| && |m| == |s| && s[top] == tmp
    && SameItems(m[hole := tmp], s)
    && (forall k {:trigger m[k]} :: 0 <= k < |m| && (k < hole || k > top) ==> m[k] == s[k])
    && (forall k {:trigger m[k]} :: hole < k <= top ==> m[k] == s[k - 1] && Compare(cmp, m[k], tmp) > 0)
  }

  lemma ShiftOne<T(!new)>(cmp: (T, T) -> int, s: seq<T>, m: seq<T>, lo: int, hole: int, top: int, tmp: T)
    requires Shifted(cmp, s, m, lo, hole, top, tmp) && hole > lo && Compare(cmp, m[hole - 1], tmp) > 0
    ensures Shifted(cmp, s, m[hole := m[hole - 1]], lo, hole - 1, top, tmp)
  {
    SwapItems(m, hole, tmp);
  }

  /** Moving the element below the hole up moves the hole down. */
  lemma SwapItems<T(!new)>(m: seq<T>, hole: int, tmp: T)
    requires 0 < hole < |m|
    ensures SameItems(m[hole := tmp], m[hole := m[hole - 1]][hole - 1 := tmp])
  {
    var all := m[hole := tmp];
    assert m[hole := m[hole - 1]][hole - 1 := tmp] == all[hole := all[hole - 1]][hole - 1 := all[hole]];
    SwapKeepsItems(all, hole, hole - 1);
  }

  lemma SwapKeepsItems<T(!new)>(s: seq<T>, i: int, j: int)
    requires 0 <= i < |s| && 0 <= j < |s|
    ensures SameItems(s, s[i := s[j]][j := s[i]])
  {
    assert multiset(s[i := s[j]]) == multiset(s) - multiset{s[i]} + multiset{s[j]};
  }

  lemma Settled<T(!new)>(cmp: (T, T) -> int, s: seq<T>, m: seq<T>, lo: int, hole: int, top: int, tmp: T)
    requires Consistent(cmp) && Shifted(cmp, s, m, lo, hole, top, tmp) && SortedIn(cmp, s, lo, top - 1)
    requires hole > lo ==> Compare(cmp, m[hole - 1], tmp) <= 0
    ensures Permutes(s, m[hole := tmp], lo, top) && SortedIn(cmp, m[hole := tmp], lo, top)
  {
    var r := m[hole := tmp];
    forall u, v | lo <= u < v <= top ensures Compare(cmp, r[u], r[v]) <= 0 {
      if u < hole {
        assert r[u] == s[u] && Compare(cmp, s[u], s[hole - 1]) <= 0;
        if v > hole { assert r[v] == s[v - 1]; }
      } else if u > hole {
        assert r[u] == s[u - 1] && r[v] == s[v - 1];
      }
    }
  }

  lemma StartShift<T(!new)>(cmp: (T, T) -> int, s: seq<T>, lo: int, top: int)
    requires 0 <= lo <= top < |s|
    ensures Shifted(cmp, s, s, lo, top, top, s[top])
  {
    assert s[top := s[top]] == s;
  }

  lemma PermutesTwice<T(!new)>(s: seq<T>, s1: seq<T>, s2: seq<T>, lo: int, hi: int, top: int)
    requires Permutes(s, s1, lo, hi) && Permutes(s1, s2, lo, top) && top <= hi
    ensures Permutes(s, s2, lo, hi)
  {
  }

  /** The byte loop that writes one element. */
  method Store<T(!new)>(a: array<T>, k: int, v: T)
    requires 0 <= k < a.Length
    modifies a
    ensures a[..] == old(a[..])[k := v]
  {
    a[k] := v;
  }

  /** One round of insertion_sort_bytes: the element at `top` goes down to its place. */
  method Insert<T(!new)>(a: array<T>, lo: int, top: int, cmp: (T, T) -> int)
    requires Consistent(cmp) && 0 <= lo <= top < a.Length && SortedIn(cmp, a[..], lo, top - 1)
    modifies a
    ensures Permutes(old(a[..]), a[..], lo, top) && SortedIn(cmp, a[..], lo, top)
  {
    hide Shifted, Permutes, SameItems, Consistent, Compare, SortedIn;
    ghost var s := a[..];
    var j := top - lo;
    var tmp := a[top];
    StartShift(cmp, s, lo, top);
    while j > 0
      invariant 0 <= j <= top - lo && Shifted(cmp, s, a[..], lo, lo + j, top, tmp)
    {
      if Compare(cmp, a[lo + j - 1], tmp) <= 0 {
        break;
      }
      ghost var m := a[..];
      ShiftOne(cmp, s, m, lo, lo + j, top, tmp);
      Store(a, lo + j, a[lo + j - 1]);
      j := j - 1;
    }
    ghost var m := a[..];
    Settled(cmp, s, m, lo, lo + j, top, tmp);
    Store(a, lo + j, tmp);
  }

  /** insertion_sort_bytes on the n elements from lo. */
  method InsertionSort<T(!new)>(a: array<T>, lo: int, n: int, cmp: (T, T) -> int)
    requires Consistent(cmp) && 0 <= lo && 0 <= n && lo + n <= a.Length
    modifies a
    ensures SortsTo(cmp, old(a[..]), a[..], lo, lo + n - 1)
  {
    hide Permutes, SameItems, Consistent, Compare;
    ghost var s0 := a[..];
    var i := 1;
    PermutesSelf(s0, lo, lo + n - 1);
    while i < n
      invariant 1 <= i && (i <= n || n < 1)
      invariant Permutes(s0, a[..], lo, lo + n - 1)
      invariant SortedIn(cmp, a[..], lo, lo + i - 1)
    {
      ghost var s := a[..];
      Insert(a, lo, lo + i, cmp);
      PermutesTwice(s0, s, a[..], lo, lo + n - 1, lo + i);
      i := i + 1;
    }
  }

  lemma PermutesSelf<T(!new)>(s: seq<T>, lo: int, hi: int)
    ensures Permutes(s, s, lo, hi)
  {
  }

  // ---------------------------------------------------------------- quicksort

  method Swap<T(!new)>(a: array<T>, i: int, j: int)
    requires 0 <= i < a.Length && 0 <= j < a.Length
    modifies a
    ensures a[..] == old(a[..])[i := old(a[j])][j := old(a[i])]
    ensures SameItems(old(a[..]), a[..])
  {
    ghost var s := a[..];
    if i != j {
      var t := a[i];
      a[i] := a[j];
      a[j] := t;
    }
    assert a[..] == s[i := s[j]][j := s[i]];
    SwapKeepsItems(s, i, j);
  }

  /** A compare-and-swap of two elements inside lo..hi. */
  method Order<T(!new)>(a: array<T>, i: int, j: int, cmp: (T, T) -> int, ghost lo: int, ghost hi: int)
    requires 0 <= lo <= i < j <= hi < a.Length
    modifies a
    ensures Permutes(old(a[..]), a[..], lo, hi)
    ensures a[..] == OrderedPair(cmp, old(a[..]), i, j)
  {
    ghost var s := a[..];
    if Compare(cmp, a[i], a[j]) > 0 {
      Swap(a, i, j);
    }
    assert a[..] == OrderedPair(cmp, s, i, j);
  }

  ghost function OrderedPair<T(!new)>(cmp: (T, T) -> int, s: seq<T>, i: int, j: int): (r: seq<T>)
    requires 0 <= i < |s| && 0 <= j < |s|
    ensures |r| == |s|
  {
    if Compare(cmp, s[i], s[j]) > 0 then s[i := s[j]][j := s[i]] else s
  }

  lemma ThreeOrdered<T(!new)>(cmp: (T, T) -> int, s: seq<T>, lo: int, mid: int, hi: int)
    requires Consistent(cmp) && 0 <= lo < mid < hi < |s|
    ensures var r := OrderedPair(cmp, OrderedPair(cmp, OrderedPair(cmp, s, lo, mid), lo, hi), mid, hi);
      Compare(cmp, r[lo], r[mid]) <= 0 && Compare(cmp, r[mid], r[hi]) <= 0
  {
    hide Compare;
    var x, y, z := s[lo], s[mid], s[hi];
    assert Compare(cmp, x, y) <= 0 || Compare(cmp, y, x) <= 0;
    assert Compare(cmp, x, z) <= 0 || Compare(cmp, z, x) <= 0;
    assert Compare(cmp, y, z) <= 0 || Compare(cmp, z, y) <= 0;
  }

  /** The three compare-and-swaps leave the low, middle and high elements in order. */
  method MedianOfThree<T(!new)>(a: array<T>, lo: int, mid: int, hi: int, cmp: (T, T) -> int)
    requires Consistent(cmp) && 0 <= lo < mid < hi < a.Length
    modifies a
    ensures Permutes(old(a[..]), a[..], lo, hi)
    ensures Compare(cmp, a[lo], a[mid]) <= 0 && Compare(cmp, a[mid], a[hi]) <= 0
  {
    hide Compare, SameItems, Permutes, Consistent, OrderedPair;
    ghost var s := a[..];
    Order(a, lo, mid, cmp, lo, hi);
    ghost var s1 := a[..];
    Order(a, lo, hi, cmp, lo, hi);
    ghost var s2 := a[..];
    Order(a, mid, hi, cmp, lo, hi);
    PermutesTwice(s, s1, s2, lo, hi, hi);
    PermutesTwice(s, s2, a[..], lo, hi, hi);
    ThreeOrdered(cmp, s, lo, mid, hi);
    assert a[lo] == a[..][lo] && a[mid] == a[..][mid] && a[hi] == a[..][hi];
  }

  ghost predicate AllBelow<T(!new)>(cmp: (T, T) -> int, s: seq<T>, lo: int, hi: int, p: T) {
    forall k {:trigger s[k]} :: 0 <= k < |s| && lo <= k <= hi ==> Compare(cmp, s[k], p) < 0
  }

  ghost predicate AllAbove<T(!new)>(cmp: (T, T) -> int, s: seq<T>, lo: int, hi: int, p: T) {
    forall k {:trigger s[k]} :: 0 <= k < |s| && lo <= k <= hi ==> Compare(cmp, s[k], p) > 0
  }

  /** Between scans: what is below i is at most the pivot, what is above j at least the pivot,
      and the elements at l and r will stop the scans inside the range. */
  ghost predicate Scanned<T(!new)>(cmp: (T, T) -> int, s: seq<T>, m: seq<T>, lo: int, i: int, j: int, hi: int,
      l: int, r: int, p: T) {
    && Permutes(s, m, lo, hi) && 0 <= lo <= l <= j <= hi < |m| && lo <= i <= r <= hi && i <= j
    && Compare(cmp, m[l], p) <= 0 && Compare(cmp, p, m[r]) <= 0
    && AllAtMost(cmp, m, lo, i - 1, p) && AllAtLeast(cmp, m, j + 1, hi, p)
  }

  lemma ScanStart<T(!new)>(cmp: (T, T) -> int, s: seq<T>, lo: int, mid: int, hi: int)
    requires Consistent(cmp) && 0 <= lo < mid < hi < |s|
    ensures Scanned(cmp, s, s, lo, lo, hi, hi, mid, mid, s[mid])
  {
    assert Compare(cmp, s[mid], s[mid]) <= 0;
  }

  lemma StepUp<T(!new)>(cmp: (T, T) -> int, m: seq<T>, i0: int, i: int, r: int, p: T)
    requires Consistent(cmp) && 0 <= i0 <= i <= r < |m| && AllBelow(cmp, m, i0, i - 1, p)
    requires Compare(cmp, m[i], p) < 0 && Compare(cmp, p, m[r]) <= 0
    ensures i < r && AllBelow(cmp, m, i0, i, p)
  {
    hide Compare;
    assert Compare(cmp, m[r], p) >= 0;
  }

  lemma StepDown<T(!new)>(cmp: (T, T) -> int, m: seq<T>, l: int, j: int, j0: int, p: T)
    requires Consistent(cmp) && 0 <= l <= j <= j0 < |m| && AllAbove(cmp, m, j + 1, j0, p)
    requires Compare(cmp, m[j], p) > 0 && Compare(cmp, m[l], p) <= 0
    ensures l < j && AllAbove(cmp, m, j, j0, p)
  {
  }

  /** The first round starts from the ends with the pivot itself as both stops; later rounds
      start inside. */
  ghost predicate RoundStart(lo: int, mid: int, hi: int, i: int, j: int, l: int, r: int) {
    (i == lo && j == hi && l == r == mid) || (lo < i && j < hi && l == i - 1 && r == j + 1)
  }

  /** Scans that meet leave the range partitioned into two smaller parts. */
  lemma ScansMet<T(!new)>(cmp: (T, T) -> int, s: seq<T>, m: seq<T>, lo: int, mid: int, i0: int, i: int, j: int,
      j0: int, hi: int, l: int, r: int, p: T)
    requires Consistent(cmp) && Scanned(cmp, s, m, lo, i0, j0, hi, l, r, p)
      && RoundStart(lo, mid, hi, i0, j0, l, r) && lo < mid < hi
    requires i0 <= i <= r && l <= j <= j0 && AllBelow(cmp, m, i0, i - 1, p) && AllAbove(cmp, m, j + 1, j0, p)
    requires Compare(cmp, m[i], p) >= 0 && Compare(cmp, m[j], p) <= 0 && i >= j
    ensures Partitioned(cmp, m, lo, j, i, hi, p) && j < hi && lo < i
  {
    hide Compare;
    assert j < j0 ==> Compare(cmp, m[j + 1], p) > 0;
    forall k | lo <= k <= j ensures Compare(cmp, m[k], p) <= 0 { }
    forall k | i <= k <= hi ensures Compare(cmp, p, m[k]) <= 0 { }
  }

  /** Exchanging the two elements that stopped the scans either ends the partition or starts
      another round. */
  lemma ScansSwapped<T(!new)>(cmp: (T, T) -> int, s: seq<T>, m: seq<T>, m': seq<T>, lo: int, i0: int, i: int,
      j: int, j0: int, hi: int, l: int, r: int, p: T)
    requires Consistent(cmp) && Scanned(cmp, s, m, lo, i0, j0, hi, l, r, p)
    requires i0 <= i <= r && l <= j <= j0 && AllBelow(cmp, m, i0, i - 1, p) && AllAbove(cmp, m, j + 1, j0, p)
    requires Compare(cmp, m[i], p) >= 0 && Compare(cmp, m[j], p) <= 0 && i < j
    requires m' == m[i := m[j]][j := m[i]] && SameItems(m, m')
    ensures Permutes(s, m', lo, hi)
    ensures i + 1 <= j - 1 ==> Scanned(cmp, s, m', lo, i + 1, j - 1, hi, i, j, p)
    ensures i + 1 > j - 1 ==> Partitioned(cmp, m', lo, j - 1, i + 1, hi, p)
  {
    hide Compare, Permutes, Consistent, AllAtMost, AllAtLeast, AllBelow, AllAbove;
    SwapPermutes(s, m, m', lo, i, j, hi);
    SwapBelow(cmp, m, m', lo, i0, i, j, p);
    SwapAbove(cmp, m, m', i, j, j0, hi, p);
  }

  lemma SwapPermutes<T(!new)>(s: seq<T>, m: seq<T>, m': seq<T>, lo: int, i: int, j: int, hi: int)
    requires Permutes(s, m, lo, hi) && 0 <= lo <= i < j <= hi < |m| && m' == m[i := m[j]][j := m[i]] && SameItems(m, m')
    ensures Permutes(s, m', lo, hi)
  {
  }

  lemma SwapBelow<T(!new)>(cmp: (T, T) -> int, m: seq<T>, m': seq<T>, lo: int, i0: int, i: int, j: int, p: T)
    requires 0 <= lo <= i0 <= i < j < |m| && m' == m[i := m[j]][j := m[i]]
    requires AllAtMost(cmp, m, lo, i0 - 1, p) && AllBelow(cmp, m, i0, i - 1, p) && Compare(cmp, m[j], p) <= 0
    ensures AllAtMost(cmp, m', lo, i, p) && Compare(cmp, m'[i], p) <= 0
  {
    hide Compare;
    forall k | lo <= k < i ensures Compare(cmp, m'[k], p) <= 0 {
      assert m'[k] == m[k];
    }
  }

  lemma SwapAbove<T(!new)>(cmp: (T, T) -> int, m: seq<T>, m': seq<T>, i: int, j: int, j0: int, hi: int, p: T)
    requires Consistent(cmp) && 0 <= i < j <= j0 <= hi < |m| && m' == m[i := m[j]][j := m[i]]
    requires AllAtLeast(cmp, m, j0 + 1, hi, p) && AllAbove(cmp, m, j + 1, j0, p) && Compare(cmp, m[i], p) >= 0
    ensures AllAtLeast(cmp, m', j, hi, p) && Compare(cmp, p, m'[j]) <= 0
  {
    hide Compare;
    forall k | j < k <= hi ensures Compare(cmp, p, m'[k]) <= 0 {
      assert m'[k] == m[k];
      assert k <= j0 ==> Compare(cmp, m[k], p) > 0;
    }
    assert m'[j] == m[i] && Compare(cmp, p, m[i]) <= 0;
  }

  /** The Hoare partition of lo..hi around the value at mid. The scans stay inside the range
      without bounds checks, and both parts are smaller than the range. */
  method Partition<T(!new)>(a: array<T>, lo: int, mid: int, hi: int, cmp: (T, T) -> int) returns (j: int, i: int,
      ghost p: T)
    requires Consistent(cmp) && 0 <= lo < mid < hi < a.Length
    modifies a
    ensures Permutes(old(a[..]), a[..], lo, hi) && Partitioned(cmp, a[..], lo, j, i, hi, p)
    ensures j < hi && lo < i
  {
    hide Compare, SameItems, Permutes, Consistent, AllAtMost, AllAtLeast, AllBelow, AllAbove, Partitioned;
    var pivot := a[mid];
    p := pivot;
    i, j := lo, hi;
    ghost var s := a[..];
    ghost var l, r := mid, mid;
    ScanStart(cmp, s, lo, mid, hi);
    while true
      invariant Scanned(cmp, s, a[..], lo, i, j, hi, l, r, pivot) && RoundStart(lo, mid, hi, i, j, l, r)
      decreases j - i
    {
      ghost var m, i0, j0 := a[..], i, j;
      NoneScanned(cmp, m, i, j, pivot);
      while Compare(cmp, a[i], pivot) < 0
        invariant i0 <= i <= r && a[..] == m && AllBelow(cmp, m, i0, i - 1, pivot)
        decreases r - i
      {
        StepUp(cmp, m, i0, i, r, pivot);
        i := i + 1;
      }
      while Compare(cmp, a[j], pivot) > 0
        invariant l <= j <= j0 && a[..] == m && AllAbove(cmp, m, j + 1, j0, pivot)
        decreases j - l
      {
        StepDown(cmp, m, l, j, j0, pivot);
        j := j - 1;
      }
      if i >= j {
        ScansMet(cmp, s, m, lo, mid, i0, i, j, j0, hi, l, r, pivot);
        break;
      }
      Swap(a, i, j);
      ScansSwapped(cmp, s, m, a[..], lo, i0, i, j, j0, hi, l, r, pivot);
      l, r := i, j;
      i, j := i + 1, j - 1;
      if i > j {
        break;
      }
    }
  }

  lemma NoneScanned<T(!new)>(cmp: (T, T) -> int, m: seq<T>, i: int, j: int, p: T)
    ensures AllBelow(cmp, m, i, i - 1, p) && AllAbove(cmp, m, j + 1, j, p)
  {
  }

  // ---------------------------------------------------------------- the sort

  const STACK_SIZE: int := 64

  /** The range at stack height h lies in the array, has at least two elements and spans at
      most (n - 1) / 2^h + 1 of them. */
  ghost predicate EntryOk(e: Range, h: nat, n: int) {
    0 <= e.lo < e.hi < n && (e.hi - e.lo) * Pow2(h) <= n - 1
  }

  ghost predicate StackOk(stack: seq<Range>, n: int) {
    forall h {:trigger stack[h]} :: 0 <= h < |stack| ==> EntryOk(stack[h], h, n)
  }

  /** What is left to do: it shrinks when a range is replaced by two that share at most a slot. */
  function Weight(stack: seq<Range>): int {
    if stack == [] then 0
    else Weight(stack[..|stack| - 1]) + 2 * (stack[|stack| - 1].hi - stack[|stack| - 1].lo) - 1
  }

  lemma WeightOfPush(rest: seq<Range>, e: Range)
    ensures Weight(rest + [e]) == Weight(rest) + 2 * (e.hi - e.lo) - 1
  {
    assert (rest + [e])[..|rest|] == rest;
  }

  lemma {:induction false} WeightNotNegative(stack: seq<Range>, n: int)
    requires StackOk(stack, n)
    ensures Weight(stack) >= 0
  {
    if stack != [] { WeightNotNegative(stack[..|stack| - 1], n); }
  }

  lemma MulMonotone(a: int, b: int, p: int)
    requires a <= b && p >= 0
    ensures a * p <= b * p
  {
  }

  /** An entry of two or more elements sits below height 63. */
  lemma HeightBound(e: Range, h: nat, n: int)
    requires EntryOk(e, h, n) && n < 0x8000_0000_0000_0000
    ensures h < 63
  {
    MulMonotone(1, e.hi - e.lo, Pow2(h));
    if h >= 63 {
      Pow2Values();
      Pow2Monotone(63, h);
    }
  }

  /** The smaller part, pushed last, spans at most half as much as the range it came from. */
  lemma SmallerOnTop(e: Range, x: Range, h: nat, n: int)
    requires EntryOk(e, h, n) && e.lo <= x.lo < x.hi <= e.hi && 2 * (x.hi - x.lo) <= e.hi - e.lo
    ensures EntryOk(x, h + 1, n)
  {
    Doubled(x.hi - x.lo, Pow2(h));
    MulMonotone(2 * (x.hi - x.lo), e.hi - e.lo, Pow2(h));
  }

  lemma Doubled(k: int, p: int)
    ensures k * (2 * p) == (2 * k) * p
  {
  }

  lemma LargerBelow(e: Range, x: Range, h: nat, n: int)
    requires EntryOk(e, h, n) && e.lo <= x.lo < x.hi <= e.hi
    ensures EntryOk(x, h, n)
  {
    MulMonotone(x.hi - x.lo, e.hi - e.lo, Pow2(h));
  }

  /** The stack after the parts x and then y of the popped range e are pushed, those of a
      single element excepted. */
  function Pushed(rest: seq<Range>, x: Range, y: Range): seq<Range> {
    rest + [x] + if y.lo < y.hi then [y] else []
  }

  lemma PushedOk<T(!new)>(cmp: (T, T) -> int, s: seq<T>, s': seq<T>, rest: seq<Range>, e: Range, j: int, i: int,
      p: T, leftFirst: bool, n: int)
    requires Consistent(cmp) && Sortable(cmp, s, rest + [e]) && StackOk(rest + [e], n) && n < 0x8000_0000_0000_0000
    requires Permutes(s, s', e.lo, e.hi) && Partitioned(cmp, s', e.lo, j, i, e.hi, p) && j < e.hi && e.lo < i
    requires leftFirst <==> j - e.lo > e.hi - i
    requires e.hi - e.lo >= 4
    ensures var x := if leftFirst then Range(e.lo, j) else Range(i, e.hi);
      var y := if leftFirst then Range(i, e.hi) else Range(e.lo, j);
      var stack := Pushed(rest, x, y);
      && x.lo < x.hi && Sortable(cmp, s', stack) && StackOk(stack, n) && |stack| < STACK_SIZE
      && 0 <= Weight(stack) < Weight(rest + [e])
  {
    hide Permutes, Partitioned, Sortable, Consistent, Pow2;
    var x := if leftFirst then Range(e.lo, j) else Range(i, e.hi);
    var y := if leftFirst then Range(i, e.hi) else Range(e.lo, j);
    PartsOf(cmp, s', e, j, i, p);
    PartsSortable(cmp, s, s', rest, e.lo, j, i, e.hi, p, leftFirst);
    assert rest + [x] + [y] ==
      rest + if leftFirst then [Range(e.lo, j), Range(i, e.hi)] else [Range(i, e.hi), Range(e.lo, j)];
    if y.hi <= y.lo { TrivialTop(cmp, s', rest + [x], y); }
    assert (rest + [e])[|rest|] == e;
    LargerBelow(e, x, |rest|, n);
    if y.lo < y.hi { SmallerOnTop(e, y, |rest|, n); }
    var stack := Pushed(rest, x, y);
    assert rest + [x] + [] == rest + [x];
    forall h | 0 <= h < |stack| ensures EntryOk(stack[h], h, n) {
      if h < |rest| { assert (rest + [e])[h] == rest[h] == stack[h]; }
    }
    HeightBound(stack[|stack| - 1], |stack| - 1, n);
    WeightNotNegative(stack, n);
    WeightOfPush(rest, e);
    WeightOfPush(rest, x);
    WeightOfPush(rest + [x], y);
  }

  lemma PartsOf<T(!new)>(cmp: (T, T) -> int, s: seq<T>, e: Range, j: int, i: int, p: T)
    requires Partitioned(cmp, s, e.lo, j, i, e.hi, p)
    ensures e.lo <= j <= i <= e.hi && i <= j + 1
  {
  }

  /** The pushes of the larger and then the smaller part, each only if it has two elements
      and the stack has room. */
  method PushBoth(stack: array<Range>, sp: int, x: Range, y: Range) returns (sp': int)
    requires stack.Length == STACK_SIZE && 0 <= sp && sp + 2 <= STACK_SIZE && x.lo < x.hi
    modifies stack
    ensures sp' == |Pushed(old(stack[..sp]), x, y)| && stack[..sp'] == Pushed(old(stack[..sp]), x, y)
  {
    sp' := sp;
    if x.hi - x.lo + 1 > 1 && sp' < STACK_SIZE {
      stack[sp'] := x;
      sp' := sp' + 1;
    }
    if y.hi - y.lo + 1 > 1 && sp' < STACK_SIZE {
      stack[sp'] := y;
      sp' := sp' + 1;
    }
  }

  /** qsort of a whole array, shorter than 2^63 elements as any object is. */
  method Sort<T(!new)>(a: array<T>, cmp: (T, T) -> int)
    requires Consistent(cmp) && a.Length < 0x8000_0000_0000_0000
    modifies a
    ensures multiset(a[..]) == multiset(old(a[..]))
    ensures forall i, j :: 0 <= i < j < a.Length ==> Compare(cmp, a[i], a[j]) <= 0
  {
    hide Compare, SameItems, Consistent, Partitioned, Sortable, StackOk, Weight, Permutes, SortedIn, Pow2;
    var n := a.Length;
    if n < 2 {
      return;
    }
    if n < 32 {
      InsertionSort(a, 0, n, cmp);
      SortedResult(cmp, old(a[..]), a[..]);
      return;
    }
    var stack := new Range[STACK_SIZE];
    ghost var s0 := a[..];
    stack[0] := Range(0, n - 1);
    var sp := 1;
    FirstRange(cmp, s0, stack[..sp]);
    while sp > 0
      invariant 0 <= sp < STACK_SIZE && fresh(stack)
      invariant Sortable(cmp, a[..], stack[..sp]) && StackOk(stack[..sp], n) && SameItems(a[..], s0)
      decreases Weight(stack[..sp])
    {
      sp := sp - 1;
      var lo, hi := stack[sp].lo, stack[sp].hi;
      ghost var s, rest, e := a[..], stack[..sp], Range(lo, hi);
      assert stack[..sp + 1] == rest + [e];
      TopOk(cmp, s, rest, e, n);
      var count := hi - lo + 1;
      if count < 32 {
        InsertionSort(a, lo, count, cmp);
        TopSorted(cmp, s, a[..], s0, rest, e);
        continue;
      }
      var mid := lo + count / 2;
      MedianOfThree(a, lo, mid, hi, cmp);
      ghost var s1 := a[..];
      ghost var p;
      var j, i;
      j, i, p := Partition(a, lo, mid, hi, cmp);
      PermutesTwice(s, s1, a[..], lo, hi, hi);
      var leftN := j - lo + 1;
      var rightN := hi - i + 1;
      PushedOk(cmp, s, a[..], rest, e, j, i, p, leftN > rightN, n);
      SameItemsTwice(s0, s, a[..], lo, hi);
      if leftN > rightN {
        sp := PushBoth(stack, sp, Range(lo, j), Range(i, hi));
      } else {
        sp := PushBoth(stack, sp, Range(i, hi), Range(lo, j));
      }
    }
    assert stack[..sp] == [];
    StackEmpty(cmp, a[..], s0);
  }

  lemma SortedResult<T(!new)>(cmp: (T, T) -> int, s: seq<T>, s': seq<T>)
    requires SortsTo(cmp, s, s', 0, |s| - 1)
    ensures multiset(s') == multiset(s) && forall i, j :: 0 <= i < j < |s'| ==> Compare(cmp, s'[i], s'[j]) <= 0
  {
  }

  lemma FirstRange<T(!new)>(cmp: (T, T) -> int, s: seq<T>, stack: seq<Range>)
    requires |s| >= 2 && stack == [Range(0, |s| - 1)]
    ensures Sortable(cmp, s, stack) && StackOk(stack, |s|) && SameItems(s, s)
  {
    forall s' | SortsTo(cmp, s, s', 0, |s| - 1) ensures Sortable(cmp, s', stack[..0]) { assert stack[..0] == []; }
  }

  lemma TopOk<T(!new)>(cmp: (T, T) -> int, s: seq<T>, rest: seq<Range>, e: Range, n: int)
    requires StackOk(rest + [e], n)
    ensures 0 <= e.lo < e.hi < n && StackOk(rest, n) && Weight(rest) >= 0
    ensures Weight(rest) < Weight(rest + [e])
  {
    assert (rest + [e])[|rest|] == e;
    forall h | 0 <= h < |rest| ensures EntryOk(rest[h], h, n) { assert (rest + [e])[h] == rest[h]; }
    WeightNotNegative(rest, n);
    WeightOfPush(rest, e);
  }

  lemma TopSorted<T(!new)>(cmp: (T, T) -> int, s: seq<T>, s': seq<T>, s0: seq<T>, rest: seq<Range>, e: Range)
    requires Sortable(cmp, s, rest + [e]) && SortsTo(cmp, s, s', e.lo, e.hi) && SameItems(s, s0)
    ensures Sortable(cmp, s', rest) && SameItems(s', s0)
  {
    assert (rest + [e])[..|rest|] == rest && (rest + [e])[|rest|] == e;
  }

  lemma SameItemsTwice<T(!new)>(s0: seq<T>, s: seq<T>, s': seq<T>, lo: int, hi: int)
    requires SameItems(s, s0) && Permutes(s, s', lo, hi)
    ensures SameItems(s', s0)
  {
  }

  lemma StackEmpty<T(!new)>(cmp: (T, T) -> int, s: seq<T>, s0: seq<T>)
    requires Sortable(cmp, s, []) && SameItems(s, s0)
    ensures multiset(s) == multiset(s0) && forall i, j :: 0 <= i < j < |s| ==> Compare(cmp, s[i], s[j]) <= 0
  {
  }
}
