/** What the futex and runqueue operations mean for the lists of threads. A bucket is a stack
    with its oldest thread first; the runqueue has its next thread first. */
module Parking {

  datatype Lists<T> = Lists(parked: seq<seq<T>>, queue: seq<T>)

  /** t is linked in some bucket. */
  ghost predicate Parked<T>(l: Lists<T>, t: T) {
    exists b {:trigger l.parked[b]} :: 0 <= b < |l.parked| && t in l.parked[b]
  }

  /** No thread is linked in a bucket and in the runqueue. */
  ghost predicate Separate<T>(l: Lists<T>) {
    forall b, t :: 0 <= b < |l.parked| && t in l.parked[b] ==> t !in l.queue
  }

  function Park<T>(l: Lists<T>, b: nat, t: T): Lists<T>
    requires b < |l.parked|
  {
    l.(parked := l.parked[b := l.parked[b] + [t]])
  }

  /** How many threads a wake of n takes from a bucket of the given length. */
  function Woken(n: int, length: nat): nat {
    if n <= 0 then 0 else if n < length then n else length
  }

  /** The most recently parked threads move behind the runqueue, oldest of them first. */
  function Wake<T>(l: Lists<T>, b: nat, n: int): Lists<T>
    requires b < |l.parked|
  {
    var s := l.parked[b];
    var keep := |s| - Woken(n, |s|);
    Lists(l.parked[b := s[..keep]], l.queue + s[keep..])
  }

  /** No thread is linked twice in the buckets. */
  ghost predicate ParkedOnce<T>(l: Lists<T>) {
    forall b: nat, h: nat, c: nat, g: nat {:trigger l.parked[b][h], l.parked[c][g]} ::
      b < |l.parked| && h < |l.parked[b]| && c < |l.parked| && g < |l.parked[c]| && l.parked[b][h] == l.parked[c][g] ==>
        b == c && h == g
  }

  /** A wake keeps the buckets and the runqueue apart. */
  lemma WakeSeparates<T>(l: Lists<T>, b: nat, n: int)
    requires b < |l.parked| && ParkedOnce(l)
    ensures Separate(l) ==> Separate(Wake(l, b, n))
    ensures Separate(l) ==> forall t <- l.parked[b][|l.parked[b]| - Woken(n, |l.parked[b]|)..] :: t !in l.queue
  {
    var l' := Wake(l, b, n);
    var s := l.parked[b];
    var keep := |s| - Woken(n, |s|);
    if Separate(l) {
      forall t <- s[keep..] ensures t !in l.queue { assert t in l.parked[b]; }
      forall c, t | 0 <= c < |l'.parked| && t in l'.parked[c] ensures t !in l'.queue {
        var i: nat :| i < |l'.parked[c]| && l'.parked[c][i] == t;
        assert l.parked[c][i] == t && t in l.parked[c];
        forall h: nat | h < |s[keep..]| ensures s[keep..][h] != t {
          assert s[keep..][h] == l.parked[b][keep + h];
        }
      }
    }
  }

  /** Waking one thread undoes the latest park and queues that thread. */
  lemma WakeTakesLatest<T>(l: Lists<T>, b: nat, t: T)
    requires b < |l.parked|
    ensures Wake(Park(l, b, t), b, 1) == l.(queue := l.queue + [t])
  {
    var s := l.parked[b] + [t];
    assert s[..|s| - 1] == l.parked[b] && s[|s| - 1..] == [t];
    assert l.parked[b := s][b := l.parked[b]] == l.parked;
  }

  lemma ParkSeparates<T>(l: Lists<T>, b: nat, t: T)
    requires b < |l.parked|
    ensures Separate(Park(l, b, t)) <==> Separate(l) && t !in l.queue
  {
    var l' := Park(l, b, t);
    assert t in l'.parked[b];
    if Separate(l') {
      forall c, u | 0 <= c < |l.parked| && u in l.parked[c] ensures u !in l.queue {
        assert u in l'.parked[c];
      }
    }
  }

  // ---------------------------------------------------------------- conservation

  function Total<T>(ss: seq<seq<T>>): multiset<T> {
    if ss == [] then multiset{} else Total(ss[..|ss| - 1]) + multiset(ss[|ss| - 1])
  }

  /** Every thread linked anywhere, with its multiplicity. */
  function Members<T>(l: Lists<T>): multiset<T> {
    Total(l.parked) + multiset(l.queue)
  }

  lemma {:induction false} TotalUpdate<T>(ss: seq<seq<T>>, b: nat, s: seq<T>)
    requires b < |ss|
    ensures Total(ss[b := s]) + multiset(ss[b]) == Total(ss) + multiset(s)
  {
    var last := |ss| - 1;
    var front := ss[..last];
    var top := multiset(ss[last]);
    if b == last {
      assert ss[b := s][..last] == front;
      Exchange(Total(front), multiset(s), top);
    } else {
      TotalUpdate(front, b, s);
      assert ss[b := s][..last] == front[b := s];
      Exchange(Total(front[b := s]), top, multiset(ss[b]));
      Exchange(Total(front), top, multiset(s));
    }
  }

  lemma Exchange<T>(a: multiset<T>, x: multiset<T>, y: multiset<T>)
    ensures (a + x) + y == (a + y) + x
  {
  }

  /** Multiset sums cancel. */
  lemma MoveOver<T>(after: multiset<T>, before: multiset<T>, kept: multiset<T>, moved: multiset<T>, queue: multiset<T>)
    requires after + (kept + moved) == before + kept
    ensures after + (queue + moved) == before + queue
  {
    forall x ensures (after + (queue + moved))[x] == (before + queue)[x] {
      assert (after + (kept + moved))[x] == (before + kept)[x];
    }
  }

  lemma AddOver<T>(after: multiset<T>, before: multiset<T>, kept: multiset<T>, t: T)
    requires after + kept == before + (kept + multiset{t})
    ensures after == before + multiset{t}
  {
    forall x ensures after[x] == (before + multiset{t})[x] {
      assert (after + kept)[x] == (before + (kept + multiset{t}))[x];
    }
  }

  lemma WakeConserves<T>(l: Lists<T>, b: nat, n: int)
    requires b < |l.parked|
    ensures Members(Wake(l, b, n)) == Members(l)
  {
    var s := l.parked[b];
    var keep := |s| - Woken(n, |s|);
    TotalUpdate(l.parked, b, s[..keep]);
    assert s == s[..keep] + s[keep..];
    MoveOver(Total(Wake(l, b, n).parked), Total(l.parked), multiset(s[..keep]), multiset(s[keep..]), multiset(l.queue));
  }

  lemma ParkAdds<T>(l: Lists<T>, b: nat, t: T)
    requires b < |l.parked|
    ensures Members(Park(l, b, t)) == Members(l) + multiset{t}
  {
    TotalUpdate(l.parked, b, l.parked[b] + [t]);
    AddOver(Total(Park(l, b, t).parked), Total(l.parked), multiset(l.parked[b]), t);
  }

  /** A run of the scheduler: running threads park, wakes come from anywhere, CPUs take the next thread. */
  datatype Op<T> = ParkOp(b: nat, t: T) | WakeOp(b: nat, n: int) | PopOp

  datatype System<T> = System(lists: Lists<T>, running: multiset<T>)

  predicate Legal<T(==)>(s: System<T>, op: Op<T>) {
    match op
    case ParkOp(b, t) => b < |s.lists.parked| && t in s.running
    case WakeOp(b, n) => b < |s.lists.parked|
    case PopOp => true
  }

  function Apply<T>(s: System<T>, op: Op<T>): System<T>
    requires Legal(s, op)
  {
    match op
    case ParkOp(b, t) => System(Park(s.lists, b, t), s.running - multiset{t})
    case WakeOp(b, n) => s.(lists := Wake(s.lists, b, n))
    case PopOp =>
      if s.lists.queue == [] then s
      else System(s.lists.(queue := s.lists.queue[1..]), s.running + multiset{s.lists.queue[0]})
  }

  ghost predicate IsRun<T>(run: seq<System<T>>, ops: seq<Op<T>>) {
    && |run| == |ops| + 1
    && forall i {:trigger ops[i]} :: 0 <= i < |ops| ==> Legal(run[i], ops[i]) && run[i + 1] == Apply(run[i], ops[i])
  }

  /** Over every run no thread is lost or duplicated. */
  lemma {:induction false} RunConserves<T>(run: seq<System<T>>, ops: seq<Op<T>>, k: nat)
    requires IsRun(run, ops) && k < |run|
    ensures Members(run[k].lists) + run[k].running == Members(run[0].lists) + run[0].running
  {
    if k > 0 {
      RunConserves(run, ops, k - 1);
      StepConserves(run[k - 1], ops[k - 1]);
    }
  }

  lemma StepConserves<T>(s: System<T>, op: Op<T>)
    requires Legal(s, op)
    ensures var s' := Apply(s, op);
      Members(s'.lists) + s'.running == Members(s.lists) + s.running
  {
    match op
    case ParkOp(b, t) =>
      ParkAdds(s.lists, b, t);
      assert s.running == (s.running - multiset{t}) + multiset{t};
    case WakeOp(b, n) => WakeConserves(s.lists, b, n);
    case PopOp =>
      if s.lists.queue != [] {
        var q := s.lists.queue;
        assert q == [q[0]] + q[1..];
        assert multiset(q) == multiset{q[0]} + multiset(q[1..]);
      }
  }

  // ---------------------------------------------------------------- order

  function ParkAll<T>(l: Lists<T>, b: nat, ts: seq<T>): (r: Lists<T>)
    requires b < |l.parked|
    ensures |r.parked| == |l.parked|
  {
    if ts == [] then l else Park(ParkAll(l, b, ts[..|ts| - 1]), b, ts[|ts| - 1])
  }

  lemma {:induction false} ParkAllAppends<T>(l: Lists<T>, b: nat, ts: seq<T>)
    requires b < |l.parked|
    ensures ParkAll(l, b, ts) == l.(parked := l.parked[b := l.parked[b] + ts])
  {
    if ts == [] {
      assert l.parked[b] + ts == l.parked[b] && l.parked[b := l.parked[b]] == l.parked;
    } else {
      var front, last := ts[..|ts| - 1], ts[|ts| - 1];
      ParkAllAppends(l, b, front);
      assert l.parked[b] + front + [last] == l.parked[b] + ts by { assert front + [last] == ts; }
    }
  }

  /** A broadcast runs threads in the order in which they parked. */
  lemma BroadcastInArrivalOrder<T>(l: Lists<T>, b: nat, ts: seq<T>, n: int)
    requires b < |l.parked| && n >= |l.parked[b]| + |ts|
    ensures Wake(ParkAll(l, b, ts), b, n) == Lists(l.parked[b := []], l.queue + l.parked[b] + ts)
  {
    ParkAllAppends(l, b, ts);
    var s := l.parked[b] + ts;
    assert s[|s| - Woken(n, |s|)..] == s && s[..|s| - Woken(n, |s|)] == [];
    assert l.queue + s == l.queue + l.parked[b] + ts;
    assert l.parked[b := s][b := []] == l.parked[b := []];
  }

  /** A wake of none, or of fewer, changes nothing. */
  lemma WakeOfNone<T>(l: Lists<T>, b: nat, n: int)
    requires b < |l.parked| && n <= 0
    ensures Wake(l, b, n) == l
  {
    var s := l.parked[b];
    assert s[..|s|] == s && s[|s|..] == [] && l.parked[b := s] == l.parked;
  }

  /** Two wakes leave the same threads parked as one wake of both counts, but queue the more recent
      threads first. */
  lemma WakesInTurn<T>(l: Lists<T>, b: nat, m: nat, n: nat)
    requires b < |l.parked| && m + n <= |l.parked[b]|
    ensures var s := l.parked[b];
      var k := |s|;
      var twice := Wake(Wake(l, b, m), b, n);
      var once := Wake(l, b, m + n);
      && twice.parked == once.parked
      && once.queue == l.queue + s[k - m - n..k - m] + s[k - m..]
      && twice.queue == l.queue + s[k - m..] + s[k - m - n..k - m]
  {
    var s := l.parked[b];
    var k := |s|;
    assert s[..k - m][..k - m - n] == s[..k - m - n] && s[..k - m][k - m - n..] == s[k - m - n..k - m];
    assert s[k - m - n..] == s[k - m - n..k - m] + s[k - m..];
    assert l.parked[b := s[..k - m]][b := s[..k - m - n]] == l.parked[b := s[..k - m - n]];
  }
}
