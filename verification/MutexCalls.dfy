/** The mutex and condition calls as their callers see them, from the call to its return, and the signals
    counted from the moves of a run. */
module MutexCalls {
  import opened Bits
  import opened Mutex

  /** Thread t, or one that has never called when there is no such thread. */
  function ThreadAt(s: State, t: nat): Thread {
    if t < |s.threads| then s.threads[t] else Thread(false, Outside(0))
  }

  function PcAt(s: State, t: nat): Pc {
    ThreadAt(s, t).pc
  }

  lemma {:induction false} RunShape(run: seq<State>, moves: seq<Move>, k: nat)
    requires IsRun(run, moves) && k < |run|
    ensures |run[k].threads| == |run[0].threads| && |run[k].seqs| == |run[k].signals| == |run[0].seqs|
  {
    if k > 0 {
      RunShape(run, moves, k - 1);
      assert run[k] == Step(run[k - 1], moves[k - 1].t, moves[k - 1].call);
    }
  }

  /** A step of another thread leaves a thread as it is. */
  lemma OthersStay(run: seq<State>, moves: seq<Move>, k: nat, t: nat)
    requires IsRun(run, moves) && k < |moves| && moves[k].t != t
    ensures ThreadAt(run[k + 1], t) == ThreadAt(run[k], t)
  {
    assert run[k + 1] == Step(run[k], moves[k].t, moves[k].call);
  }

  // ---------------------------------------------------------------- signals

  /** How many of the first k moves are the increment of a signal or broadcast of condition c. */
  ghost function Signalled(run: seq<State>, moves: seq<Move>, c: nat, k: nat): nat
    requires k <= |moves| < |run|
  {
    if k == 0 then 0
    else Signalled(run, moves, c, k - 1) + (if PcAt(run[k - 1], moves[k - 1].t) == SignalAdd(c) then 1 else 0)
  }

  /** The counter of every condition is the number of increments made, modulo 2^64. */
  lemma {:induction false} SignalsCounted(run: seq<State>, moves: seq<Move>, c: nat, k: nat)
    requires IsRun(run, moves) && k < |run| && c < |run[0].seqs|
    ensures c < |run[k].seqs| == |run[k].signals|
    ensures run[k].signals[c] == Signalled(run, moves, c, k)
    ensures run[k].seqs[c] == Signalled(run, moves, c, k) % WORD_LIMIT
  {
    RunShape(run, moves, k);
    if k > 0 {
      SignalsCounted(run, moves, c, k - 1);
      assert run[k] == Step(run[k - 1], moves[k - 1].t, moves[k - 1].call);
      NextModulo(Signalled(run, moves, c, k - 1));
    }
  }

  // ---------------------------------------------------------------- waiting

  /** A waiter of condition c that has loaded the counter and not yet decided. */
  predicate Undecided(pc: Pc, c: nat) {
    match pc
    case WaitStore(d, _, _) => d == c
    case WaitWake(d, _, _) => d == c
    case WaitCheck(d, _, _) => d == c
    case _ => false
  }

  function Snap(pc: Pc): nat {
    match pc
    case WaitStore(_, snap, _) => snap
    case WaitWake(_, snap, _) => snap
    case WaitCheck(_, snap, _) => snap
    case _ => 0
  }

  /** Thread t loads the counter of c at move j and has not yet decided at move k. */
  ghost predicate WaitsFrom(run: seq<State>, moves: seq<Move>, j: nat, k: nat, t: nat, c: nat) {
    && IsRun(run, moves) && j < k < |moves|
    && moves[j].t == t && PcAt(run[j], t) == WaitLoad(c)
    && forall i {:trigger run[i]} :: j < i <= k ==> Undecided(PcAt(run[i], t), c)
  }

  lemma {:induction false} SnapKept(run: seq<State>, moves: seq<Move>, j: nat, k: nat, t: nat, c: nat, i: nat)
    requires WaitsFrom(run, moves, j, k, t, c) && j < i <= k
    ensures c < |run[0].seqs| && Snap(PcAt(run[i], t)) == Signalled(run, moves, c, j) % WORD_LIMIT
  {
    hide Cas, Enter, Init;
    var m := moves[i - 1];
    assert run[i] == Step(run[i - 1], m.t, m.call) && Enabled(run[i - 1], m.t, m.call);
    assert Undecided(PcAt(run[i], t), c);
    if i == j + 1 {
      RunShape(run, moves, j);
      SignalsCounted(run, moves, c, j);
    } else {
      assert Undecided(PcAt(run[i - 1], t), c);
      SnapKept(run, moves, j, k, t, c, i - 1);
      if m.t != t { OthersStay(run, moves, i - 1, t); }
    }
  }

  /** The decision of a waiter: it parks if and only if the increments between its load and its check are
      a multiple of 2^64 in number, so not when there is one, and when there is none. Otherwise it yields. */
  lemma ParksExactly(run: seq<State>, moves: seq<Move>, j: nat, k: nat, t: nat, c: nat)
    requires WaitsFrom(run, moves, j, k, t, c) && moves[k].t == t && PcAt(run[k], t).WaitCheck?
    ensures var between := Signalled(run, moves, c, k) - Signalled(run, moves, c, j);
      && between >= 0
      && (PcAt(run[k + 1], t).WaitPark? <==> between % WORD_LIMIT == 0)
      && (PcAt(run[k + 1], t) == WaitYield <==> between % WORD_LIMIT != 0)
  {
    SnapKept(run, moves, j, k, t, c, k);
    SignalsCounted(run, moves, c, k);
    SignalledGrows(run, moves, c, j, k);
    assert Undecided(PcAt(run[k], t), c);
    assert run[k + 1] == Step(run[k], t, moves[k].call);
    SameModulo(Signalled(run, moves, c, k), Signalled(run, moves, c, j));
  }

  lemma {:induction false} SignalledGrows(run: seq<State>, moves: seq<Move>, c: nat, j: nat, k: nat)
    requires j <= k <= |moves| < |run|
    ensures Signalled(run, moves, c, j) <= Signalled(run, moves, c, k)
  {
    if j < k { SignalledGrows(run, moves, c, j, k - 1); }
  }

  lemma SameModulo(x: nat, y: nat)
    requires y <= x
    ensures x % WORD_LIMIT == y % WORD_LIMIT <==> (x - y) % WORD_LIMIT == 0
  {
  }

  /** Every waiter that is about to decide has loaded the counter since, while it held the mutex. */
  lemma {:induction false} LoadedBefore(run: seq<State>, moves: seq<Move>, k: nat, t: nat, c: nat)
    returns (j: nat)
    requires IsRun(run, moves) && k < |moves| && Undecided(PcAt(run[k], t), c)
    ensures WaitsFrom(run, moves, j, k, t, c) && ThreadAt(run[j], t).holds
  {
    assert k > 0;
    var m := moves[k - 1];
    assert run[k] == Step(run[k - 1], m.t, m.call);
    if Undecided(PcAt(run[k - 1], t), c) {
      j := LoadedBefore(run, moves, k - 1, t, c);
    } else {
      j := k - 1;
      if m.t != t { OthersStay(run, moves, k - 1, t); }
      RunKeepsInv(run, moves, j);
      assert PcOk(run[j], t);
    }
  }

  // ---------------------------------------------------------------- calls

  /** Thread t enters the library at move j and returns to its caller at move k. */
  ghost predicate IsCall(run: seq<State>, moves: seq<Move>, j: nat, k: nat, t: nat) {
    && IsRun(run, moves) && j < k < |moves| && moves[j].t == t
    && PcAt(run[j], t).Outside? && PcAt(run[k + 1], t).Outside?
    && forall i {:trigger run[i]} :: j < i <= k ==> !PcAt(run[i], t).Outside?
  }

  /** Where a thread may be inside a call. */
  predicate Within(call: Call, th: Thread) {
    match call
    case Lock => th.pc == LockCas(false) || th.pc == LockPark(false)
    case Trylock => th.pc == TryCas
    case Unlock => th.pc == UnlockStore || (th.pc == UnlockWake && !th.holds)
    case Wait(c) =>
      || th.pc == WaitLoad(c) || Undecided(th.pc, c)
      || (!th.holds && (th.pc == LockCas(true) || th.pc == LockPark(true) || th.pc == WaitYield || IsPark(th.pc, c)))
    case Signal(c) => th.pc == SignalAdd(c) || th.pc == SignalWake
  }

  predicate IsPark(pc: Pc, c: nat) {
    pc.WaitPark? && pc.c == c
  }

  lemma {:induction false} StaysWithin(run: seq<State>, moves: seq<Move>, j: nat, k: nat, t: nat, i: nat)
    requires IsCall(run, moves, j, k, t) && j < i <= k
    ensures Within(moves[j].call, ThreadAt(run[i], t))
  {
    var m := moves[i - 1];
    assert run[i] == Step(run[i - 1], m.t, m.call);
    assert !PcAt(run[i], t).Outside?;
    if i > j + 1 {
      StaysWithin(run, moves, j, k, t, i - 1);
      RunKeepsInv(run, moves, i - 1);
      if m.t == t { assert PcOk(run[i - 1], t); } else { OthersStay(run, moves, i - 1, t); }
    }
  }

  /** The move that returns is the caller's own. */
  lemma ReturnsItself(run: seq<State>, moves: seq<Move>, j: nat, k: nat, t: nat)
    requires IsCall(run, moves, j, k, t)
    ensures moves[k].t == t < |run[k].threads| == |run[k + 1].threads|
    ensures run[k + 1] == Step(run[k], t, moves[k].call) && Within(moves[j].call, ThreadAt(run[k], t))
    ensures !PcAt(run[k], t).Outside?
  {
    StaysWithin(run, moves, j, k, t, k);
    assert run[k + 1] == Step(run[k], moves[k].t, moves[k].call);
    assert !PcAt(run[k], t).Outside?;
    if moves[k].t != t { OthersStay(run, moves, k, t); }
  }

  /** pthread_mutex_lock returns 0, to the sole holder of the mutex, which was free just before. */
  lemma LockCall(run: seq<State>, moves: seq<Move>, j: nat, k: nat, t: nat)
    requires IsCall(run, moves, j, k, t) && moves[j].call == Lock
    ensures ThreadAt(run[k + 1], t) == Thread(true, Outside(0)) && OnlyHolder(run[k + 1], t)
    ensures forall u: nat :: !Holder(run[k], u)
  {
    ReturnsItself(run, moves, j, k, t);
    LockReturnsHolding(run, moves, k, t);
    MutualExclusion(run, moves, k);
  }

  /** pthread_mutex_trylock returns -1 if some thread holds the mutex as it tries, and nothing else changes
      for its caller; otherwise it returns 0 to the sole holder. */
  lemma TrylockCall(run: seq<State>, moves: seq<Move>, j: nat, k: nat, t: nat)
    requires IsCall(run, moves, j, k, t) && moves[j].call == Trylock
    ensures var after := ThreadAt(run[k + 1], t);
      if exists u: nat :: Holder(run[k], u) then after == Thread(ThreadAt(run[k], t).holds, Outside(-1))
      else after == Thread(true, Outside(0)) && OnlyHolder(run[k + 1], t)
  {
    ReturnsItself(run, moves, j, k, t);
    TrylockExact(run, moves, k);
  }

  /** pthread_mutex_unlock, called by a holder, returns 0 to a thread that no longer holds the mutex. */
  lemma UnlockCall(run: seq<State>, moves: seq<Move>, j: nat, k: nat, t: nat)
    requires IsCall(run, moves, j, k, t) && moves[j].call == Unlock
    ensures ThreadAt(run[j], t).holds && ThreadAt(run[k + 1], t) == Thread(false, Outside(0))
  {
    ReturnsItself(run, moves, j, k, t);
    assert Enabled(run[j], moves[j].t, moves[j].call);
  }

  /** pthread_cond_wait, called by a holder, returns 0 to the sole holder, which had given the mutex up. */
  lemma WaitCall(run: seq<State>, moves: seq<Move>, j: nat, k: nat, t: nat)
    requires IsCall(run, moves, j, k, t) && moves[j].call.Wait?
    ensures ThreadAt(run[j], t).holds && !ThreadAt(run[k], t).holds && (forall u: nat :: !Holder(run[k], u))
    ensures ThreadAt(run[k + 1], t) == Thread(true, Outside(0)) && OnlyHolder(run[k + 1], t)
  {
    ReturnsItself(run, moves, j, k, t);
    assert Enabled(run[j], moves[j].t, moves[j].call);
    LockReturnsHolding(run, moves, k, t);
    MutualExclusion(run, moves, k);
  }

  /** The moves of thread t after j and before i. */
  ghost predicate MovesOnlyAt(moves: seq<Move>, j: nat, i: nat, t: nat, at: set<nat>)
    requires i <= |moves|
  {
    forall m: nat {:trigger moves[m]} :: j < m < i ==> (moves[m].t == t <==> m in at)
  }

  /** pthread_cond_signal and pthread_cond_broadcast increment the counter of their condition once. */
  lemma SignalCall(run: seq<State>, moves: seq<Move>, j: nat, k: nat, t: nat) returns (i: nat)
    requires IsCall(run, moves, j, k, t) && moves[j].call.Signal?
    ensures j < i < k && MovesOnlyAt(moves, j, k + 1, t, {i, k})
    ensures var c := moves[j].call.c;
      && PcAt(run[i], t) == SignalAdd(c) && PcAt(run[k], t) == SignalWake && PcAt(run[k + 1], t) == Outside(0)
      && c < |run[i].seqs| == |run[i + 1].seqs|
      && run[i + 1].seqs == run[i].seqs[c := (run[i].seqs[c] + 1) % WORD_LIMIT]
  {
    ReturnsItself(run, moves, j, k, t);
    i := SignalTrace(run, moves, j, k, t, k);
    assert run[i + 1] == Step(run[i], t, moves[i].call) && Enabled(run[i], t, moves[i].call);
    RunShape(run, moves, i);
    RunShape(run, moves, i + 1);
  }

  /** Inside such a call a thread first increments, then wakes. */
  lemma {:induction false} SignalTrace(run: seq<State>, moves: seq<Move>, j: nat, k: nat, t: nat, m: nat)
    returns (i: nat)
    requires IsCall(run, moves, j, k, t) && moves[j].call.Signal? && j < m <= k
    ensures if PcAt(run[m], t) == SignalWake then
        && j < i < m && PcAt(run[i], t) == SignalAdd(moves[j].call.c) && MovesOnlyAt(moves, j, m, t, {i})
      else MovesOnlyAt(moves, j, m, t, {})
  {
    hide Cas, StoreZero, IsPark, Undecided;
    StaysWithin(run, moves, j, k, t, m);
    assert run[m] == Step(run[m - 1], moves[m - 1].t, moves[m - 1].call);
    assert !PcAt(run[m], t).Outside?;
    i := 0;
    if m > j + 1 {
      StaysWithin(run, moves, j, k, t, m - 1);
      i := SignalTrace(run, moves, j, k, t, m - 1);
      if moves[m - 1].t != t { OthersStay(run, moves, m - 1, t); } else { i := m - 1; }
    }
  }
}
