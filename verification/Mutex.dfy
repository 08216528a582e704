/** The mutex word and the condition sequence counters, over every interleaving of any number of
    threads. Each step of the system is one atomic access of one thread; parking is a step that
    may take arbitrarily long, so a parked thread may go on at any time. */
module Mutex {
  import opened Bits

  /** Where a thread is. `wait` says that pthread_mutex_lock was called from pthread_cond_wait;
      `snap` is the counter as loaded and `seen` the number of signals before the load. */
  datatype Pc =
    | Outside(ret: int)
    | LockCas(wait: bool)
    | LockPark(wait: bool)
    | TryCas
    | UnlockStore
    | UnlockWake
    | WaitLoad(c: nat)
    | WaitStore(c: nat, snap: nat, seen: nat)
    | WaitWake(c: nat, snap: nat, seen: nat)
    | WaitCheck(c: nat, snap: nat, seen: nat)
    | WaitPark(c: nat, seen: nat)
    | WaitYield
    | SignalAdd(c: nat)
    | SignalWake

  /** A thread holds the mutex from the access that won it to the store that gives it up. */
  datatype Thread = Thread(holds: bool, pc: Pc)

  /** `word` is the mutex word, `seqs` the 64-bit counters of the conditions, `signals` how often
      each condition was signalled or broadcast. */
  datatype State = State(word: int, seqs: seq<nat>, signals: seq<nat>, threads: seq<Thread>)

  /** What a thread outside the library calls next. */
  datatype Call = Lock | Trylock | Unlock | Wait(c: nat) | Signal(c: nat)

  predicate Enabled(s: State, t: nat, call: Call) {
    && t < |s.threads| && |s.seqs| == |s.signals|
    && match s.threads[t].pc
       case Outside(_) => (
         match call
         case Unlock => s.threads[t].holds
         case Wait(c) => s.threads[t].holds && c < |s.seqs|
         case Signal(c) => c < |s.seqs|
         case _ => true)
       case WaitLoad(c) => c < |s.seqs|
       case WaitCheck(c, _, _) => c < |s.seqs|
       case SignalAdd(c) => c < |s.seqs|
       case _ => true
  }

  function At(s: State, t: nat, pc: Pc): State
    requires t < |s.threads|
  {
    s.(threads := s.threads[t := s.threads[t].(pc := pc)])
  }

  /** Compare-and-swap of the word from 0 to 1. */
  function Cas(s: State, t: nat, won: Pc, lost: Pc): State
    requires t < |s.threads|
  {
    if s.word == 0 then s.(word := 1, threads := s.threads[t := Thread(true, won)]) else At(s, t, lost)
  }

  /** The releasing store of 0. */
  function StoreZero(s: State, t: nat, pc: Pc): State
    requires t < |s.threads|
  {
    s.(word := 0, threads := s.threads[t := Thread(false, pc)])
  }

  function Enter(call: Call): Pc {
    match call
    case Lock => LockCas(false)
    case Trylock => TryCas
    case Unlock => UnlockStore
    case Wait(c) => WaitLoad(c)
    case Signal(c) => SignalAdd(c)
  }

  /** One step of thread t. */
  function Step(s: State, t: nat, call: Call): State
    requires Enabled(s, t, call)
  {
    match s.threads[t].pc
    case Outside(_) => At(s, t, Enter(call))
    case LockCas(wait) => Cas(s, t, Outside(0), LockPark(wait))
    case LockPark(wait) => At(s, t, LockCas(wait))
    case TryCas => Cas(s, t, Outside(0), Outside(-1))
    case UnlockStore => StoreZero(s, t, UnlockWake)
    case UnlockWake => At(s, t, Outside(0))
    case WaitLoad(c) => At(s, t, WaitStore(c, s.seqs[c], s.signals[c]))
    case WaitStore(c, snap, seen) => StoreZero(s, t, WaitWake(c, snap, seen))
    case WaitWake(c, snap, seen) => At(s, t, WaitCheck(c, snap, seen))
    case WaitCheck(c, snap, seen) => At(s, t, if s.seqs[c] == snap then WaitPark(c, seen) else WaitYield)
    case WaitPark(c, seen) => At(s, t, LockCas(true))
    case WaitYield => At(s, t, LockCas(true))
    case SignalAdd(c) =>
      var u := s.(seqs := s.seqs[c := (s.seqs[c] + 1) % WORD_LIMIT], signals := s.signals[c := s.signals[c] + 1]);
      At(u, t, SignalWake)
    case SignalWake => At(s, t, Outside(0))
  }

  /** All threads outside, the mutex free, nothing signalled. */
  predicate Init(s: State) {
    && s.word == 0 && |s.signals| == |s.seqs|
    && (forall t :: 0 <= t < |s.threads| ==> s.threads[t] == Thread(false, Outside(0)))
    && (forall c :: 0 <= c < |s.seqs| ==> s.seqs[c] == 0 && s.signals[c] == 0)
  }

  datatype Move = Move(t: nat, call: Call)

  ghost predicate IsRun(run: seq<State>, moves: seq<Move>) {
    && |run| == |moves| + 1 && Init(run[0])
    && forall k {:trigger moves[k]} :: 0 <= k < |moves| ==>
         Enabled(run[k], moves[k].t, moves[k].call) && run[k + 1] == Step(run[k], moves[k].t, moves[k].call)
  }

  // ---------------------------------------------------------------- the invariant

  ghost predicate Holder(s: State, t: nat) {
    t < |s.threads| && s.threads[t].holds
  }

  ghost predicate Exclusive(s: State) {
    && (forall t, u {:trigger Holder(s, t), Holder(s, u)} :: Holder(s, t) && Holder(s, u) ==> t == u)
    && (s.word != 0 <==> exists t :: Holder(s, t))
  }

  /** A thread about to give up the mutex holds it; one on its way back from a wait does not. */
  predicate PcOk(s: State, t: nat)
    requires t < |s.threads|
  {
    var th := s.threads[t];
    match th.pc
    case UnlockStore => th.holds
    case WaitLoad(c) => th.holds && c < |s.seqs|
    case WaitStore(c, snap, seen) => th.holds && c < |s.seqs| && Loaded(s, c, snap, seen)
    case WaitWake(c, snap, seen) => !th.holds && c < |s.seqs| && Loaded(s, c, snap, seen)
    case WaitCheck(c, snap, seen) => !th.holds && c < |s.seqs| && Loaded(s, c, snap, seen)
    case WaitPark(c, seen) => !th.holds && c < |s.seqs|
    case WaitYield => !th.holds
    case LockCas(wait) => wait ==> !th.holds
    case LockPark(wait) => wait ==> !th.holds
    case SignalAdd(c) => c < |s.seqs|
    case _ => true
  }

  predicate Loaded(s: State, c: nat, snap: nat, seen: nat) {
    c < |s.signals| && seen <= s.signals[c] && snap == seen % WORD_LIMIT
  }

  ghost predicate Inv(s: State) {
    && Exclusive(s) && |s.signals| == |s.seqs|
    && (forall t: nat {:trigger PcOk(s, t)} :: t < |s.threads| ==> PcOk(s, t))
    && (forall c: nat {:trigger s.seqs[c]} :: c < |s.seqs| ==> s.seqs[c] == s.signals[c] % WORD_LIMIT)
  }

  lemma StepKeepsExclusive(s: State, t: nat, call: Call)
    requires Inv(s) && Enabled(s, t, call)
    ensures Exclusive(Step(s, t, call))
  {
    var s' := Step(s, t, call);
    assert PcOk(s, t);
    forall u | u != t ensures Holder(s', u) == Holder(s, u) {
    }
    if Holder(s', t) == Holder(s, t) && s'.word == s.word {
      forall u ensures Holder(s', u) == Holder(s, u) {
      }
    } else if s.word == 0 {
      assert Holder(s', t);
    } else {
      assert Holder(s, t) && !Holder(s', t);
    }
  }

  lemma StepKeepsPcs(s: State, t: nat, call: Call, u: nat)
    requires Inv(s) && Enabled(s, t, call) && u < |s.threads|
    ensures PcOk(Step(s, t, call), u)
  {
    hide Exclusive;
    assert PcOk(s, t) && PcOk(s, u);
  }

  lemma StepKeepsCounters(s: State, t: nat, call: Call, c: nat)
    requires Inv(s) && Enabled(s, t, call) && c < |s.seqs|
    ensures var s' := Step(s, t, call);
      |s'.seqs| == |s'.signals| == |s.seqs| && s'.seqs[c] == s'.signals[c] % WORD_LIMIT
  {
    hide Exclusive;
    NextModulo(s.signals[c]);
  }

  lemma StepKeepsInv(s: State, t: nat, call: Call)
    requires Inv(s) && Enabled(s, t, call)
    ensures Inv(Step(s, t, call))
  {
    hide Exclusive, PcOk;
    var s' := Step(s, t, call);
    StepKeepsExclusive(s, t, call);
    forall u: nat | u < |s'.threads| ensures PcOk(s', u) {
      StepKeepsPcs(s, t, call, u);
    }
    forall c: nat | c < |s'.seqs| ensures s'.seqs[c] == s'.signals[c] % WORD_LIMIT {
      StepKeepsCounters(s, t, call, c);
    }
  }

  lemma NextModulo(n: nat)
    ensures (n % WORD_LIMIT + 1) % WORD_LIMIT == (n + 1) % WORD_LIMIT
  {
  }

  lemma {:induction false} RunKeepsInv(run: seq<State>, moves: seq<Move>, k: nat)
    requires IsRun(run, moves) && k < |run|
    ensures Inv(run[k])
  {
    if k == 0 {
      forall t: nat | t < |run[0].threads| ensures PcOk(run[0], t) && !Holder(run[0], t) {
      }
    } else {
      RunKeepsInv(run, moves, k - 1);
      StepKeepsInv(run[k - 1], moves[k - 1].t, moves[k - 1].call);
    }
  }

  // ---------------------------------------------------------------- theorems

  /** In every reachable state at most one thread holds the mutex, and the word is nonzero exactly
      when one does. */
  lemma MutualExclusion(run: seq<State>, moves: seq<Move>, k: nat)
    requires IsRun(run, moves) && k < |run|
    ensures forall t, u :: Holder(run[k], t) && Holder(run[k], u) ==> t == u
    ensures run[k].word != 0 <==> exists t :: Holder(run[k], t)
  {
    RunKeepsInv(run, moves, k);
  }

  ghost predicate OnlyHolder(s: State, t: nat) {
    Holder(s, t) && forall u: nat :: Holder(s, u) ==> u == t
  }

  /** Inside pthread_cond_wait. */
  predicate InWait(pc: Pc) {
    match pc
    case LockCas(wait) => wait
    case LockPark(wait) => wait
    case _ => pc.WaitLoad? || pc.WaitStore? || pc.WaitWake? || pc.WaitCheck? || pc.WaitPark? || pc.WaitYield?
  }

  /** pthread_cond_wait returns only to the holder of the mutex, having won a word that was free. */
  lemma WaitReturnsHolding(run: seq<State>, moves: seq<Move>, k: nat, t: nat)
    requires IsRun(run, moves) && k < |moves| && t < |run[k].threads| == |run[k + 1].threads|
    requires InWait(run[k].threads[t].pc) && !InWait(run[k + 1].threads[t].pc)
    ensures moves[k].t == t && run[k].word == 0 && run[k + 1].word != 0
    ensures run[k + 1].threads[t] == Thread(true, Outside(0)) && OnlyHolder(run[k + 1], t)
  {
    var m := moves[k];
    assert run[k + 1] == Step(run[k], m.t, m.call);
    RunKeepsInv(run, moves, k);
    RunKeepsInv(run, moves, k + 1);
    assert Holder(run[k + 1], t);
  }

  /** pthread_mutex_lock, however often it parks, returns only to the sole holder of the mutex, having
      won a word that was free. */
  lemma LockReturnsHolding(run: seq<State>, moves: seq<Move>, k: nat, t: nat)
    requires IsRun(run, moves) && k < |moves| && t < |run[k].threads| == |run[k + 1].threads|
    requires InLock(run[k].threads[t].pc) && !InLock(run[k + 1].threads[t].pc)
    ensures moves[k].t == t && run[k].word == 0 && run[k + 1].word != 0
    ensures run[k + 1].threads[t] == Thread(true, Outside(0)) && OnlyHolder(run[k + 1], t)
  {
    var m := moves[k];
    assert run[k + 1] == Step(run[k], m.t, m.call);
    RunKeepsInv(run, moves, k + 1);
    assert Holder(run[k + 1], t);
  }

  predicate InLock(pc: Pc) {
    pc.LockCas? || pc.LockPark?
  }

  /** pthread_mutex_trylock succeeds exactly when no thread holds the mutex, and then its caller does. */
  lemma TrylockExact(run: seq<State>, moves: seq<Move>, k: nat)
    requires IsRun(run, moves) && k < |moves| && moves[k].t < |run[k].threads|
    requires run[k].threads[moves[k].t].pc.TryCas?
    ensures |run[k + 1].threads| == |run[k].threads|
    ensures var after := run[k + 1].threads[moves[k].t];
      if exists u: nat :: Holder(run[k], u) then after == run[k].threads[moves[k].t].(pc := Outside(-1))
      else after == Thread(true, Outside(0)) && OnlyHolder(run[k + 1], moves[k].t)
  {
    var m := moves[k];
    assert run[k + 1] == Step(run[k], m.t, m.call);
    RunKeepsInv(run, moves, k);
    RunKeepsInv(run, moves, k + 1);
    if run[k].word == 0 { assert Holder(run[k + 1], m.t); }
  }

  // ---------------------------------------------------------------- an atomic lock

  /** The lock that the word implements: free, or owned by one thread. */
  datatype Lock = Free | Owned(t: nat)

  ghost function Abstract(s: State): Lock {
    if t: nat :| Holder(s, t) then Owned(t) else Free
  }

  datatype Event = Acquire(t: nat) | TryFails(t: nat) | Release(t: nat) | Silent

  /** The lock event of thread t's step, seen from where the thread goes. */
  function EventOf(before: Pc, after: Pc, t: nat): Event {
    match before
    case LockCas(_) => if after.Outside? then Acquire(t) else Silent
    case TryCas => if after == Outside(0) then Acquire(t) else TryFails(t)
    case UnlockStore => Release(t)
    case WaitStore(_, _, _) => Release(t)
    case _ => Silent
  }

  predicate LockStep(a: Lock, e: Event, a': Lock) {
    match e
    case Acquire(t) => a == Free && a' == Owned(t)
    case TryFails(t) => a.Owned? && a' == a
    case Release(t) => a == Owned(t) && a' == Free
    case Silent => a' == a
  }

  /** Every run of the word is a run of the atomic lock: a call that wins acquires a free lock, a
      trylock fails only against an owner, the two stores of 0 release the caller's own lock, and no
      other step changes it. */
  lemma RefinesAtomicLock(run: seq<State>, moves: seq<Move>, k: nat)
    requires IsRun(run, moves) && k < |moves|
    ensures moves[k].t < |run[k].threads| == |run[k + 1].threads|
    ensures LockStep(Abstract(run[k]),
                     EventOf(run[k].threads[moves[k].t].pc, run[k + 1].threads[moves[k].t].pc, moves[k].t),
                     Abstract(run[k + 1]))
  {
    var s, t, call := run[k], moves[k].t, moves[k].call;
    RunKeepsInv(run, moves, k);
    RunKeepsInv(run, moves, k + 1);
    StepRefines(s, t, call);
  }

  lemma AbstractIs(s: State, a: Lock)
    requires Exclusive(s) && if a.Owned? then Holder(s, a.t) else s.word == 0
    ensures Abstract(s) == a
  {
    if a.Free? { assert forall t: nat :: !Holder(s, t); }
  }

  lemma AbstractMeans(s: State)
    requires Exclusive(s)
    ensures match Abstract(s) case Free => s.word == 0 case Owned(t) => s.word != 0 && Holder(s, t)
  {
    if s.word != 0 { assert exists t: nat :: Holder(s, t); }
  }

  /** A step changes the word together with who holds the mutex, or neither. */
  lemma StepHolders(s: State, t: nat, call: Call)
    requires Inv(s) && Enabled(s, t, call)
    ensures var s' := Step(s, t, call);
      && |s'.threads| == |s.threads| && t < |s.threads|
      && (forall u: nat :: u != t ==> Holder(s', u) == Holder(s, u))
      && match EventOf(s.threads[t].pc, s'.threads[t].pc, t)
         case Acquire(u) => u == t && s.word == 0 && s'.word != 0 && Holder(s', t)
         case TryFails(u) => u == t && s.word != 0 && s'.word == s.word && Holder(s', t) == Holder(s, t)
         case Release(u) => u == t && s.word != 0 && s'.word == 0 && Holder(s, t)
         case Silent => s'.word == s.word && Holder(s', t) == Holder(s, t)
  {
    assert PcOk(s, t);
    if Holder(s, t) { assert s.word != 0; }
  }

  lemma StepRefines(s: State, t: nat, call: Call)
    requires Inv(s) && Enabled(s, t, call) && Inv(Step(s, t, call))
    ensures var s' := Step(s, t, call);
      && |s'.threads| == |s.threads| && t < |s.threads|
      && LockStep(Abstract(s), EventOf(s.threads[t].pc, s'.threads[t].pc, t), Abstract(s'))
  {
    hide Abstract, EventOf, PcOk, Step, Enabled;
    var s' := Step(s, t, call);
    AbstractMeans(s);
    StepHolders(s, t, call);
    match EventOf(s.threads[t].pc, s'.threads[t].pc, t)
    case Acquire(_) => AbstractIs(s', Owned(t));
    case TryFails(_) => AbstractIs(s', Abstract(s));
    case Release(_) =>
      AbstractIs(s, Owned(t));
      AbstractIs(s', Free);
    case Silent => AbstractIs(s', Abstract(s));
  }
}
