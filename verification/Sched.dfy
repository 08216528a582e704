/** Futex buckets and the runqueue: intrusive singly linked lists of threads. */
module Sched {
  import opened Bits
  import opened Parking

  const BUCKETS: nat := 64

  datatype ThreadState = Empty | Runnable | Running | Waiting | Done

  /** Where a thread was last linked in a bucket, at a height counted from its oldest thread, and in the
      runqueue, under a ticket that only ever grows. It may be linked in both. */
  datatype BucketPlace = NoBucket | InBucket(bucket: nat, height: nat)

  datatype QueuePlace = NoQueue | InQueue(ticket: nat)

  class KThread {
    var state: ThreadState
    var wkNext: KThread?
    var rqNext: KThread?
    ghost var parkedAt: BucketPlace
    ghost var queuedAt: QueuePlace

    constructor ()
      ensures state == Empty && wkNext == null && rqNext == null && parkedAt == NoBucket && queuedAt == NoQueue
    {
      state, wkNext, rqNext, parkedAt, queuedAt := Empty, null, null, NoBucket, NoQueue;
    }
  }

  function Top(s: seq<KThread>): KThread? {
    if s == [] then null else s[|s| - 1]
  }

  /** ftx_hash on the pointer's low 32 bits: keys share a bucket when they agree in bits 4 to 9. */
  function FtxHash(key: nat): (b: nat)
    ensures b == key / 16 % BUCKETS
  {
    AndLowBits(key % 0x1_0000_0000 / 16, 6);
    HashBits(key);
    And(key % 0x1_0000_0000 / 16, BUCKETS - 1)
  }

  lemma HashBits(key: nat)
    ensures Pow2(6) == 64 && key % 0x1_0000_0000 / 16 % 64 == key / 16 % 64
  {
    assert Pow2(6) == 64;
    var q, r := key / 0x1_0000_0000, key % 0x1_0000_0000;
    var x := r / 16;
    DivModUnique(key, 16, q * 0x1000_0000 + x, r % 16);
    DivModUnique(q * 0x1000_0000 + x, 64, q * 0x40_0000 + x / 64, x % 64);
  }

  class Scheduler {
    const buckets: array<KThread?>
    var rqHead: KThread?
    var rqTail: KThread?
    ghost var threads: set<KThread>
    ghost var lists: Lists<KThread>
    ghost var served: nat

    /** The thread at height h of bucket b, oldest at the bottom, is waiting and linked to the one below. */
    ghost predicate BucketNode(b: nat, h: nat)
      requires b < |lists.parked| && h < |lists.parked[b]|
      reads this, threads
    {
      var t := lists.parked[b][h];
      && t in threads && t.parkedAt == InBucket(b, h) && t.state == Waiting
      && t.wkNext == if h == 0 then null else lists.parked[b][h - 1]
    }

    ghost predicate QueueNode(i: nat)
      requires i < |lists.queue|
      reads this, threads
    {
      var t := lists.queue[i];
      && t in threads && t.queuedAt == InQueue(served + i)
      && t.rqNext == if i + 1 < |lists.queue| then lists.queue[i + 1] else null
    }

    ghost predicate BucketsOk()
      reads this, buckets, threads
    {
      && buckets.Length == |lists.parked| == BUCKETS
      && (forall b: nat, h: nat {:trigger BucketNode(b, h)} :: b < BUCKETS && h < |lists.parked[b]| ==>
            BucketNode(b, h))
      && (forall b: nat :: b < BUCKETS ==> buckets[b] == Top(lists.parked[b]))
    }

    ghost predicate QueueOk()
      reads this, threads
    {
      && (forall i: nat {:trigger QueueNode(i)} :: i < |lists.queue| ==> QueueNode(i))
      && rqHead == (if lists.queue == [] then null else lists.queue[0])
      && rqTail == Top(lists.queue)
    }

    ghost predicate Valid()
      reads this, buckets, threads
    {
      BucketsOk() && QueueOk()
    }

    /** The tail of the runqueue is one of the threads, whatever has become of the links. */
    ghost predicate TailOk()
      reads this
    {
      rqTail != null ==> rqTail in threads
    }

    constructor (threads: set<KThread>)
      ensures Valid() && fresh(buckets) && this.threads == threads
      ensures lists == Lists(seq(BUCKETS, _ => []), [])
    {
      buckets := new KThread?[BUCKETS](_ => null);
      rqHead, rqTail, this.threads, lists, served := null, null, threads, Lists(seq(BUCKETS, _ => []), []), 0;
    }

    /** rq_push. The runqueue stays a list exactly when the thread was not on it. */
    method RqPush(t: KThread)
      requires t in threads && TailOk()
      modifies this`rqHead, this`rqTail, this`lists, threads`rqNext, threads`queuedAt
      ensures lists == old(lists).(queue := old(lists.queue) + [t]) && rqTail == t
      ensures old(QueueOk()) ==> (QueueOk() <==> !old(t in lists.queue))
    {
      ghost var queue := lists.queue;
      t.rqNext := null;
      if rqTail != null {
        rqTail.rqNext := t;
      } else {
        rqHead := t;
      }
      rqTail := t;
      t.queuedAt := InQueue(served + |queue|);
      lists := lists.(queue := queue + [t]);
      if t in queue {
        ghost var i: nat :| i < |queue| && queue[i] == t;
        Twice(i, |queue|);
      } else if old(QueueOk()) {
        assert |queue| > 0 ==> old(QueueNode(|queue| - 1));
        forall i: nat | i < |lists.queue| ensures QueueNode(i) {
          if i < |queue| { assert old(QueueNode(i)); }
        }
      }
    }

    /** rq_pop */
    method RqPop() returns (t: KThread?)
      requires QueueOk()
      modifies this`rqHead, this`rqTail, this`lists, this`served, threads`rqNext
      ensures QueueOk() && (old(BucketsOk()) ==> BucketsOk())
      ensures t == if old(lists.queue) == [] then null else old(lists.queue)[0]
      ensures lists == old(lists).(queue := if t == null then [] else old(lists.queue)[1..])
      ensures t != null ==> t !in lists.queue && t.rqNext == null
    {
      t := rqHead;
      if t == null { return; }
      ghost var queue := lists.queue;
      assert QueueNode(0);
      rqHead := t.rqNext;
      if rqHead == null {
        rqTail := null;
      }
      t.rqNext := null;
      lists := lists.(queue := queue[1..]);
      served := served + 1;
      assert |queue| > 1 ==> old(QueueNode(1));
      forall i: nat | i < |lists.queue| ensures QueueNode(i) && lists.queue[i] != t {
        assert old(QueueNode(i + 1));
      }
      KeptBuckets();
    }

    /** The buckets are right whatever the runqueue is. */
    twostate lemma KeptBuckets()
      requires old(BucketsOk()) ==> threads == old(threads) && lists.parked == old(lists.parked)
      requires old(BucketsOk()) ==> forall b :: 0 <= b < buckets.Length ==> buckets[b] == old(buckets[b])
      requires old(BucketsOk()) ==> forall b: nat, h: nat {:trigger lists.parked[b][h]} ::
        b < BUCKETS && h < |lists.parked[b]| ==>
          var t := lists.parked[b][h];
          t.wkNext == old(t.wkNext) && t.parkedAt == old(t.parkedAt) && t.state == old(t.state)
      ensures old(BucketsOk()) ==> BucketsOk()
    {
      if old(BucketsOk()) {
        forall b: nat, h: nat | b < BUCKETS && h < |lists.parked[b]| ensures BucketNode(b, h) {
          assert old(BucketNode(b, h));
        }
      }
    }

    /** sched_make_runnable: a waiting or new thread goes to the back of the runqueue, any other is left
        alone. The lists stay right exactly when such a thread is linked neither in a bucket, as a joiner
        woken by an exiting thread is, nor in the runqueue, as a thread that ran on after it was woken is. */
    method MakeRunnable(t: KThread)
      requires t in threads && TailOk()
      modifies this`rqHead, this`rqTail, this`lists, threads`state, threads`rqNext, threads`queuedAt
      ensures var moves := old(t.state == Waiting || t.state == Empty);
        && lists == (if moves then old(lists).(queue := old(lists.queue) + [t]) else old(lists))
        && (forall u <- threads :: u.state == if moves && u == t then Runnable else old(u.state))
        && rqTail == (if moves then t else old(rqTail))
        && (old(BucketsOk()) ==> (BucketsOk() <==> !(moves && old(Parked(lists, t)))))
        && (old(QueueOk()) ==> (QueueOk() <==> !(moves && old(t in lists.queue))))
      ensures old(Valid()) ==>
        (Valid() <==> !old((t.state == Waiting || t.state == Empty) && (Parked(lists, t) || t in lists.queue)))
    {
      if t.state == Waiting || t.state == Empty {
        t.state := Runnable;
        KeptQueue();
        RqPush(t);
        if old(BucketsOk()) {
          if old(Parked(lists, t)) {
            var b :| 0 <= b < |lists.parked| && t in lists.parked[b];
            var h: nat :| h < |lists.parked[b]| && lists.parked[b][h] == t;
            assert !BucketNode(b, h);
          } else {
            forall b: nat, h: nat | b < BUCKETS && h < |lists.parked[b]| ensures lists.parked[b][h] != t {
              assert lists.parked[b][h] in lists.parked[b];
            }
            KeptBuckets();
          }
        }
      }
    }

    /** The runqueue is right whatever the buckets and states are. */
    twostate lemma KeptQueue()
      requires threads == old(threads) && lists.queue == old(lists.queue) && served == old(served)
      requires rqHead == old(rqHead) && rqTail == old(rqTail)
      requires forall u <- threads :: u.rqNext == old(u.rqNext) && u.queuedAt == old(u.queuedAt)
      ensures QueueOk() <==> old(QueueOk())
    {
      if old(QueueOk()) {
        forall i: nat | i < |lists.queue| ensures QueueNode(i) { assert old(QueueNode(i)); }
      }
      if QueueOk() {
        forall i: nat | i < |lists.queue| ensures old(QueueNode(i)) { assert QueueNode(i); }
      }
    }

    /** The early return of sched_switch_away: a thread woken before it slept runs on, still queued. */
    method ResumeSelf(me: KThread) returns (resumed: bool)
      requires me in threads
      modifies me`state
      ensures resumed == (old(me.state) == Runnable) && me.state == if resumed then Running else old(me.state)
      ensures old(Valid()) ==> Valid()
    {
      resumed := me.state == Runnable;
      if resumed {
        me.state := Running;
        if old(Valid()) {
          forall b: nat, h: nat | b < BUCKETS && h < |lists.parked[b]| ensures lists.parked[b][h] != me {
            assert old(BucketNode(b, h));
          }
          KeptBuckets();
        }
        KeptQueue();
      }
    }

    /** The part of futex_wait under the bucket lock: the running thread parks itself, on the runqueue or
        not. The buckets stay right exactly when it was not parked already. */
    method FutexPark(me: KThread, key: nat)
      requires Valid() && me in threads
      modifies buckets, this`lists, me`state, me`wkNext, me`parkedAt
      ensures lists == Park(old(lists), FtxHash(key), me) && me.state == Waiting
      ensures QueueOk() && (Valid() <==> !old(Parked(lists, me)))
      ensures Valid() ==> (Separate(lists) <==> old(Separate(lists)) && me !in lists.queue)
    {
      hide QueueOk, Separate;
      var b := FtxHash(key);
      ghost var s := lists.parked[b];
      me.state := Waiting;
      me.wkNext := buckets[b];
      buckets[b] := me;
      me.parkedAt := InBucket(b, |s|);
      lists := Park(lists, b, me);
      KeptQueue();
      if old(Parked(lists, me)) {
        ghost var c :| 0 <= c < |old(lists.parked)| && me in old(lists.parked)[c];
        ghost var g: nat :| g < |old(lists.parked)[c]| && old(lists.parked)[c][g] == me;
        assert lists.parked[c][g] == me && !BucketNode(c, g);
      } else {
        forall c: nat, h: nat | c < BUCKETS && h < |lists.parked[c]| ensures BucketNode(c, h) {
          if c != b || h < |s| {
            assert old(BucketNode(c, h)) && old(lists.parked)[c][h] in old(lists.parked)[c];
          }
        }
        ParkSeparates(old(lists), b, me);
      }
    }

    ghost predicate DetachedNode(s: seq<KThread>, h: nat, b: nat)
      requires h < |s|
      reads this, threads
    {
      && s[h] in threads && s[h].parkedAt == InBucket(b, h) && s[h].state == Waiting
      && s[h].wkNext == if h + 1 < |s| then s[h + 1] else null
    }

    /** The threads of s from `start` up, unlinked from bucket b and chained from the oldest. */
    ghost predicate Detached(s: seq<KThread>, start: nat, list: KThread?, b: nat)
      reads this, threads
    {
      && start <= |s| && list == (if start < |s| then s[start] else null)
      && forall h: nat {:trigger DetachedNode(s, h, b)} :: start <= h < |s| ==> DetachedNode(s, h, b)
    }

    /** The first loop of futex_wake, under the bucket lock: up to n threads come off the top. */
    method Detach(b: nat, n: int) returns (list: KThread?, woke: nat)
      requires Valid() && b < BUCKETS
      modifies buckets, this`lists, threads`wkNext
      ensures Valid() && woke == Woken(n, |old(lists.parked[b])|)
      ensures var s := old(lists.parked[b]);
        && lists == old(lists).(parked := old(lists.parked)[b := s[..|s| - woke]])
        && Detached(s, |s| - woke, list, b)
    {
      ghost var s := lists.parked[b];
      woke, list := 0, null;
      var left := n;
      assert s[..|s|] == s && lists.parked[b := s] == lists.parked;
      while left > 0 && buckets[b] != null
        invariant woke <= |s| && left == n - woke && (woke > 0 ==> left >= 0)
        invariant Valid() && lists == old(lists).(parked := old(lists.parked)[b := s[..|s| - woke]])
        invariant Detached(s, |s| - woke, list, b)
      {
        list := TakeTop(b, list, s, |s| - woke);
        left, woke := left - 1, woke + 1;
      }
    }

    /** One turn of that loop. */
    method TakeTop(b: nat, list: KThread?, ghost s: seq<KThread>, ghost start: nat) returns (t: KThread)
      requires Valid() && b < BUCKETS && start <= |s| && lists.parked[b] == s[..start] && buckets[b] != null
      requires Detached(s, start, list, b)
      modifies buckets, this`lists, threads`wkNext
      ensures start > 0 && Valid() && lists == old(lists).(parked := old(lists.parked)[b := s[..start - 1]])
      ensures Detached(s, start - 1, t, b)
    {
      ghost var keep := start - 1;
      assert BucketNode(b, keep);
      t := buckets[b];
      buckets[b] := t.wkNext;
      t.wkNext := list;
      lists := lists.(parked := lists.parked[b := s[..keep]]);
      forall c: nat, h: nat | c < BUCKETS && h < |lists.parked[c]| ensures BucketNode(c, h) {
        assert old(BucketNode(c, h));
      }
      KeptQueue();
      forall h: nat | keep <= h < |s| ensures DetachedNode(s, h, b) {
        assert h > keep ==> old(DetachedNode(s, h, b));
      }
    }

    lemma ParkedOnceOk()
      requires BucketsOk()
      ensures |lists.parked| == BUCKETS && ParkedOnce(lists)
    {
      forall b: nat, h: nat, c: nat, g: nat
        | b < |lists.parked| && h < |lists.parked[b]| && c < |lists.parked| && g < |lists.parked[c]|
          && lists.parked[b][h] == lists.parked[c][g]
        ensures b == c && h == g
      {
        assert BucketNode(b, h) && BucketNode(c, g);
      }
    }

    lemma TailOfQueue()
      requires QueueOk()
      ensures TailOk()
    {
      if lists.queue != [] { assert QueueNode(|lists.queue| - 1); }
    }

    /** Threads queued behind a runqueue they are on make it no list. */
    lemma QueuedAgain(queue: seq<KThread>, moved: seq<KThread>)
      requires lists.queue == queue + moved
      ensures (exists u :: u in moved && u in queue) ==> !QueueOk()
    {
      if u :| u in moved && u in queue {
        var i: nat, j: nat :| i < |queue| && queue[i] == u && j < |moved| && moved[j] == u;
        Twice(i, |queue| + j);
      }
    }

    /** A thread queued twice makes the runqueue no list. */
    lemma Twice(i: nat, j: nat)
      requires i < j < |lists.queue| && lists.queue[i] == lists.queue[j]
      ensures !QueueOk()
    {
      assert !(QueueNode(i) && QueueNode(j));
    }

    /** Every thread is linked at most once in the buckets and at most once in the runqueue, and, unless one
        ran on after it was woken, in one of the two only. */
    lemma LinkedOnce(b: nat, h: nat, c: nat, g: nat, i: nat, j: nat)
      requires Valid() && b < BUCKETS && h < |lists.parked[b]| && c < BUCKETS && g < |lists.parked[c]|
      requires i < |lists.queue| && j < |lists.queue|
      ensures lists.parked[b][h] == lists.parked[c][g] <==> b == c && h == g
      ensures lists.queue[i] == lists.queue[j] <==> i == j
      ensures Separate(lists) ==> lists.parked[b][h] != lists.queue[i]
    {
      assert BucketNode(b, h) && BucketNode(c, g) && QueueNode(i) && QueueNode(j);
      assert lists.parked[b][h] in lists.parked[b] && lists.queue[i] in lists.queue;
    }

    /** A detached thread is in no bucket. */
    lemma DetachedUnparked(s: seq<KThread>, h: nat, b: nat)
      requires BucketsOk() && b < BUCKETS && h < |s| && DetachedNode(s, h, b) && |lists.parked[b]| <= h
      ensures !Parked(lists, s[h])
    {
      forall c: nat, g: nat | c < BUCKETS && g < |lists.parked[c]| ensures lists.parked[c][g] != s[h] {
        assert BucketNode(c, g);
      }
    }

    /** One turn of the second loop. */
    method WakeFirst(list: KThread, ghost s: seq<KThread>, ghost start: nat, ghost b: nat) returns (nx: KThread?)
      requires BucketsOk() && TailOk() && b < BUCKETS && start < |s| && Detached(s, start, list, b)
      requires |lists.parked[b]| <= start
      modifies this`rqHead, this`rqTail, this`lists, threads`state, threads`rqNext, threads`queuedAt
      ensures BucketsOk() && TailOk() && rqTail == s[start]
      ensures lists == old(lists).(queue := old(lists.queue) + [s[start]])
      ensures Detached(s, start + 1, nx, b)
      ensures forall u <- threads :: u.state == if u == s[start] then Runnable else old(u.state)
      ensures old(QueueOk()) && s[start] !in old(lists.queue) ==> QueueOk()
    {
      assert DetachedNode(s, start, b);
      nx := list.wkNext;
      DetachedUnparked(s, start, b);
      MakeRunnable(list);
      forall h: nat | start < h < |s| ensures DetachedNode(s, h, b) {
        assert old(DetachedNode(s, h, b));
      }
    }

    /** The second loop of futex_wake, outside the lock: the chained threads become runnable in turn. */
    method WakeChain(chain: KThread?, ghost s: seq<KThread>, ghost keep: nat, ghost b: nat)
      requires Valid() && b < BUCKETS && |lists.parked[b]| <= keep && Detached(s, keep, chain, b)
      modifies this`rqHead, this`rqTail, this`lists, threads`state, threads`rqNext, threads`queuedAt
      ensures lists == old(lists).(queue := old(lists.queue) + s[keep..])
      ensures forall u <- threads :: u.state == if u in s[keep..] then Runnable else old(u.state)
      ensures BucketsOk() && (keep < |s| ==> rqTail != null && rqTail == Top(lists.queue))
      ensures QueueOk() <==> forall u <- s[keep..] :: u !in old(lists.queue)
    {
      hide BucketsOk, QueueOk;
      ghost var queue := lists.queue;
      TailOfQueue();
      var list := chain;
      ghost var start: nat := keep;
      assert s[keep..keep] == [] && queue + [] == queue;
      while list != null
        invariant keep <= start <= |s| && BucketsOk() && TailOk()
        invariant lists == old(lists).(queue := queue + s[keep..start])
        invariant Detached(s, start, list, b)
        invariant forall u <- threads :: u.state == if u in s[keep..start] then Runnable else old(u.state)
        invariant (forall u <- s[keep..start] :: u !in queue) ==> QueueOk()
        invariant start > keep ==> rqTail == s[start - 1]
        decreases |s| - start
      {
        assert DetachedNode(s, start, b);
        assert s[start] !in s[keep..start];
        list := WakeFirst(list, s, start, b);
        assert s[keep..start + 1] == s[keep..start] + [s[start]];
        assert queue + s[keep..start] + [s[start]] == queue + s[keep..start + 1];
        start := start + 1;
      }
      assert s[keep..start] == s[keep..];
      QueuedAgain(queue, s[keep..]);
    }

    /** futex_wake: exactly the most recently parked threads move to the back of the runqueue, oldest
        of them first, and become runnable; nothing else changes. The lists stay right exactly when none
        of these threads was on the runqueue already. */
    method FutexWake(key: nat, n: int) returns (woke: nat)
      requires Valid()
      modifies buckets, this`rqHead, this`rqTail, this`lists
      modifies threads`state, threads`wkNext, threads`rqNext, threads`queuedAt
      ensures lists == Wake(old(lists), FtxHash(key), n)
      ensures woke == Woken(n, |old(lists.parked[FtxHash(key)])|)
      ensures var s := old(lists.parked[FtxHash(key)]);
        && (forall u <- threads :: u.state == if u in s[|s| - woke..] then Runnable else old(u.state))
        && (Valid() <==> forall u <- s[|s| - woke..] :: u !in old(lists.queue))
      ensures BucketsOk() && (woke > 0 ==> rqTail != null && rqTail == Top(lists.queue))
      ensures old(Separate(lists)) ==> Valid() && Separate(lists)
    {
      ParkedOnceOk();
      hide BucketsOk, QueueOk, Detached, ParkedOnce, Separate, Top;
      var b := FtxHash(key);
      ghost var s := lists.parked[b];
      WakeSeparates(lists, b, n);
      var list;
      list, woke := Detach(b, n);
      ghost var keep: nat := |s| - woke;
      assert lists.parked[b] == s[..keep];
      WakeChain(list, s, keep, b);
      assert lists == Wake(old(lists), b, n);
    }

    /** A joiner parks, and the exit of the thread it waits for wakes it: it is at the back of the
        runqueue and still on top of its bucket. */
    method JoinerWoken(joiner: KThread, key: nat)
      requires Valid() && joiner in threads && !Parked(lists, joiner)
      modifies this`rqHead, this`rqTail, this`lists, buckets, threads
      ensures !Valid() && joiner.state == Runnable
      ensures rqTail == joiner && buckets[FtxHash(key)] == joiner
    {
      ghost var b, h := FtxHash(key), |lists.parked[FtxHash(key)]|;
      FutexPark(joiner, key);
      assert BucketNode(b, h);
      TailOfQueue();
      assert joiner in lists.parked[b];
      MakeRunnable(joiner);
    }

    /** A thread parks and is woken before it sleeps. */
    method ParkAndWake(t: KThread, key: nat)
      requires Valid() && t in threads && !Parked(lists, t)
      modifies this`rqHead, this`rqTail, this`lists, buckets, threads
      ensures BucketsOk() && t.state == Runnable && lists == old(lists).(queue := old(lists.queue) + [t])
      ensures Valid() <==> t !in old(lists.queue)
    {
      ParkedOnceOk();
      hide BucketsOk, QueueOk, Separate;
      WakeTakesLatest(lists, FtxHash(key), t);
      FutexPark(t, key);
      var woke := FutexWake(key, 1);
    }

    /** A thread is woken before it sleeps, runs on, parks again and is woken again: it is queued twice. */
    method TwiceWoken(t: KThread, key: nat)
      requires Valid() && t in threads && !Parked(lists, t) && t !in lists.queue
      modifies this`rqHead, this`rqTail, this`lists, buckets, threads
      ensures !Valid() && BucketsOk() && t.state == Runnable
      ensures lists == old(lists).(queue := old(lists.queue) + [t, t])
    {
      hide BucketsOk, QueueOk;
      ParkAndWake(t, key);
      var resumed := ResumeSelf(t);
      ParkAndWake(t, key);
      assert old(lists.queue) + [t] + [t] == old(lists.queue) + [t, t];
    }
  }
}
