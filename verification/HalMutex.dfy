/** The blocking mutex of HAL9000, MutexAcquire and MutexRelease, together with the part of
    the thread scheduler that puts a waiting thread to sleep and wakes it, for any number of
    threads in any interleaving.

    Between two steps of one thread any other thread may take steps. The spinlock MutexLock
    guards the mutex; each thread has a spinlock BlockLock, which it takes before it gives up
    MutexLock and which is released on its behalf only after it has been switched out. */
module HalMutex {
  import opened Options

  datatype Pc =
    | Outside
    | Entering        // MutexAcquire, about to take MutexLock
    | Deciding        // has MutexLock, looks at Holder
    | TakingBlock     // in WaitingList, about to take its BlockLock
    | Unlocking       // has BlockLock, about to give up MutexLock
    | Blocking        // in ThreadBlock, about to be switched out
    | SwitchedOut     // state Blocked, BlockLock not yet released for it
    | Asleep          // state Blocked, BlockLock free
    | Woken           // state Ready, about to take MutexLock again
    | Rechecking      // has MutexLock, tests the loop condition again
    | LeavingAcquire  // owns the mutex, about to give up MutexLock
    | Holding         // MutexAcquire has returned
    | Returning       // MutexRelease, about to take MutexLock
    | HandingOver     // has MutexLock, takes the head of WaitingList
    | Waking(w: nat)  // in ThreadUnblock(w), about to take the BlockLock of w
    | LeavingRelease  // about to give up MutexLock

  /** The mutex, the locks and the threads; `arrived` lists the threads in the order in which
      they joined WaitingList and `served` those handed the mutex from it, since the start. */
  datatype State = State(
    holder: Option<nat>, depth: nat, waiting: seq<nat>,
    mutexLock: Option<nat>, blockLock: seq<bool>,
    threads: seq<Pc>, arrived: seq<nat>, served: seq<nat>)

  /** MutexInit. */
  function Init(n: nat): State {
    State(None, 0, [], None, seq(n, _ => false), seq(n, _ => Outside), [], [])
  }

  /** What a thread that is outside or holds the mutex does next. */
  datatype Action = Acquire | Release

  function Goto(s: State, t: nat, p: Pc): State
    requires t < |s.threads|
  {
    s.(threads := s.threads[t := p])
  }

  predicate Sound(s: State) {
    |s.blockLock| == |s.threads|
  }

  /** One step of thread `t`; a thread that spins on a lock, sleeps, or may not take the action
      stays where it is. `limit` is MaxRecursivityDepth. */
  function Step(s: State, t: nat, a: Action, limit: nat): (r: State)
    requires Sound(s) && t < |s.threads|
    ensures Sound(r) && |r.threads| == |s.threads|
  {
    match s.threads[t]
    case Outside => if a == Acquire then Enter(s, t, limit) else s
    case Entering => if s.mutexLock == None then Goto(s, t, Deciding).(mutexLock := Some(t)) else s
    case Deciding =>
      if s.holder == None then Goto(s, t, LeavingAcquire).(holder := Some(t), depth := 1)
      else Enqueue(s, t)
    case TakingBlock => if !s.blockLock[t] then Goto(s, t, Unlocking).(blockLock := s.blockLock[t := true]) else s
    case Unlocking => Goto(s, t, Blocking).(mutexLock := None)
    case Blocking => Goto(s, t, SwitchedOut)
    case SwitchedOut => Goto(s, t, Asleep).(blockLock := s.blockLock[t := false])
    case Asleep => s
    case Woken => if s.mutexLock == None then Goto(s, t, Rechecking).(mutexLock := Some(t)) else s
    case Rechecking => if s.holder == Some(t) then Goto(s, t, LeavingAcquire) else Enqueue(s, t)
    case LeavingAcquire => Goto(s, t, Holding).(mutexLock := None)
    case Holding =>
      if a == Acquire then Enter(s, t, limit)
      else if s.depth > 1 then s.(depth := s.depth - 1)
      else Goto(s, t, Returning)
    case Returning => if s.mutexLock == None then Goto(s, t, HandingOver).(mutexLock := Some(t)) else s
    case HandingOver =>
      if s.waiting == [] then Goto(s, t, LeavingRelease).(holder := None)
      else
        Goto(s, t, Waking(s.waiting[0])).(holder := Some(s.waiting[0]), depth := 1,
          waiting := s.waiting[1..], served := s.served + [s.waiting[0]])
    case Waking(w) =>
      if w < |s.threads| && w != t && !s.blockLock[w] then Goto(Goto(s, w, Woken), t, LeavingRelease) else s
    case LeavingRelease => Goto(s, t, Outside).(mutexLock := None)
  }

  /** The start of MutexAcquire, which looks at Holder without taking MutexLock; an acquire
      beyond the permitted depth fails its assertion and goes no further. */
  function Enter(s: State, t: nat, limit: nat): State
    requires t < |s.threads|
  {
    if s.holder == Some(t) then (if s.depth < limit then Goto(s, t, Holding).(depth := s.depth + 1) else s)
    else Goto(s, t, Entering)
  }

  /** InsertTailList on WaitingList. */
  function Enqueue(s: State, t: nat): State
    requires t < |s.threads|
  {
    Goto(s, t, TakingBlock).(waiting := s.waiting + [t], arrived := s.arrived + [t])
  }

  datatype Turn = Turn(thread: nat, action: Action)

  predicate ValidSchedule(n: nat, turns: seq<Turn>) {
    forall k :: 0 <= k < |turns| ==> turns[k].thread < n
  }

  function Run(s: State, turns: seq<Turn>, limit: nat): (r: State)
    requires Sound(s) && ValidSchedule(|s.threads|, turns)
    ensures Sound(r) && |r.threads| == |s.threads|
    decreases |turns|
  {
    if turns == [] then s else Run(Step(s, turns[0].thread, turns[0].action, limit), turns[1..], limit)
  }

  // ---- The invariant ----

  /** The thread is between taking MutexLock and giving it up. */
  predicate HasLock(p: Pc) {
    p.Deciding? || p.TakingBlock? || p.Unlocking? || p.Rechecking? || p.LeavingAcquire? || p.HandingOver? || p.LeavingRelease? || p.Waking?
  }

  /** The BlockLock of the thread is taken. */
  predicate HasBlockLock(p: Pc) { p.Unlocking? || p.Blocking? || p.SwitchedOut? }

  /** The thread has joined WaitingList and not been woken yet. */
  predicate Waits(p: Pc) { p.TakingBlock? || p.Unlocking? || p.Blocking? || p.SwitchedOut? || p.Asleep? }

  /** The mutex belongs to the thread, and the thread has noticed or will when it runs. */
  predicate Owns(p: Pc) { p.Woken? || p.Rechecking? || p.LeavingAcquire? || p.Holding? || p.Returning? || p.HandingOver? }

  /** The thread that is just being woken: only the thread that has MutexLock wakes another. */
  function Wakee(s: State): Option<nat> {
    if s.mutexLock.Some? && s.mutexLock.value < |s.threads| && s.threads[s.mutexLock.value].Waking?
    then Some(s.threads[s.mutexLock.value].w) else None
  }

  predicate Locks(s: State)
    requires Sound(s)
  {
    && (forall t :: 0 <= t < |s.threads| ==> (s.mutexLock == Some(t) <==> HasLock(s.threads[t])))
    && (forall t :: 0 <= t < |s.threads| ==> (s.blockLock[t] <==> HasBlockLock(s.threads[t])))
    && (s.mutexLock.Some? ==> s.mutexLock.value < |s.threads|)
  }

  predicate NoDuplicates(q: seq<nat>) { forall i, j :: 0 <= i < j < |q| ==> q[i] != q[j] }

  /** WaitingList holds the waiting threads, each once, except one that is just being woken. */
  predicate Queue(s: State) {
    && NoDuplicates(s.waiting)
    && (forall k :: 0 <= k < |s.waiting| ==> s.waiting[k] < |s.threads|)
    && (forall t :: 0 <= t < |s.threads| ==>
          (Waits(s.threads[t]) <==> t in s.waiting || Wakee(s) == Some(t)))
    && (Wakee(s).Some? ==> Wakee(s).value < |s.threads| && Wakee(s).value !in s.waiting)
    && s.arrived == s.served + s.waiting
  }

  /** The holder is the one thread that owns the mutex or is being woken to own it. */
  predicate Ownership(s: State) {
    && (forall t :: 0 <= t < |s.threads| ==> (s.holder == Some(t) <==> Owns(s.threads[t]) || Wakee(s) == Some(t)))
    && (s.holder.Some? ==> s.holder.value < |s.threads| && s.depth >= 1)
    && (s.waiting != [] ==> s.holder.Some?)
  }

  predicate Invariant(s: State) {
    Sound(s) && Locks(s) && Queue(s) && Ownership(s)
  }

  lemma InitInvariant(n: nat)
    ensures Invariant(Init(n))
  {
  }

  /** Two places that differ in nothing the invariant looks at. */
  predicate Alike(p: Pc, q: Pc) {
    && !p.Waking? && !q.Waking?
    && HasBlockLock(p) == HasBlockLock(q) && Waits(p) == Waits(q) && Owns(p) == Owns(q)
  }

  lemma MoveKeeps(s: State, t: nat, q: Pc)
    requires Invariant(s) && t < |s.threads| && Alike(s.threads[t], q) && HasLock(s.threads[t]) == HasLock(q)
    ensures Invariant(Goto(s, t, q))
  {
    assert Wakee(Goto(s, t, q)) == Wakee(s);
  }

  lemma LockKeeps(s: State, t: nat, q: Pc)
    requires Invariant(s) && t < |s.threads| && Alike(s.threads[t], q)
    requires s.mutexLock == None && HasLock(q)
    ensures Invariant(Goto(s, t, q).(mutexLock := Some(t)))
  {
    var r := Goto(s, t, q).(mutexLock := Some(t));
    assert Wakee(r) == Wakee(s) == None;
  }

  lemma UnlockKeeps(s: State, t: nat, q: Pc)
    requires Invariant(s) && t < |s.threads| && Alike(s.threads[t], q)
    requires HasLock(s.threads[t]) && !HasLock(q)
    ensures Invariant(Goto(s, t, q).(mutexLock := None))
  {
    var r := Goto(s, t, q).(mutexLock := None);
    assert s.mutexLock == Some(t) && Wakee(r) == Wakee(s) == None;
  }

  lemma BlockLockKeeps(s: State, t: nat, q: Pc)
    requires Invariant(s) && t < |s.threads|
    requires var p := s.threads[t];
             !p.Waking? && !q.Waking? && HasLock(p) == HasLock(q) && Waits(p) == Waits(q) && Owns(p) == Owns(q)
    ensures Invariant(Goto(s, t, q).(blockLock := s.blockLock[t := HasBlockLock(q)]))
  {
    assert Wakee(Goto(s, t, q).(blockLock := s.blockLock[t := HasBlockLock(q)])) == Wakee(s);
  }

  lemma TakeFreeMutexKeeps(s: State, t: nat)
    requires Invariant(s) && t < |s.threads| && s.threads[t] == Deciding && s.holder == None
    ensures Invariant(Goto(s, t, LeavingAcquire).(holder := Some(t), depth := 1))
  {
    assert s.mutexLock == Some(t) && Wakee(s) == None;
    assert Wakee(Goto(s, t, LeavingAcquire).(holder := Some(t), depth := 1)) == None;
  }

  lemma EnqueueKeeps(s: State, t: nat)
    requires Invariant(s) && t < |s.threads| && s.threads[t] == Deciding && s.holder.Some?
    ensures Invariant(Enqueue(s, t))
  {
    var r := Enqueue(s, t);
    assert s.mutexLock == Some(t) && Wakee(s) == Wakee(r) == None;
    assert t !in s.waiting;
    assert forall u: nat :: u in r.waiting <==> u in s.waiting || u == t;
    assert r.arrived == r.served + r.waiting;
  }

  lemma GiveUpKeeps(s: State, t: nat)
    requires Invariant(s) && t < |s.threads| && s.threads[t] == HandingOver && s.waiting == []
    ensures Invariant(Goto(s, t, LeavingRelease).(holder := None))
  {
    assert s.mutexLock == Some(t) && Wakee(s) == None && s.holder == Some(t);
    assert Wakee(Goto(s, t, LeavingRelease).(holder := None)) == None;
  }

  lemma HandOverKeeps(s: State, t: nat)
    requires Invariant(s) && t < |s.threads| && s.threads[t] == HandingOver && s.waiting != []
    ensures var w := s.waiting[0];
            Invariant(Goto(s, t, Waking(w)).(holder := Some(w), depth := 1, waiting := s.waiting[1..], served := s.served + [w]))
  {
    var w := s.waiting[0];
    var r := Goto(s, t, Waking(w)).(holder := Some(w), depth := 1, waiting := s.waiting[1..], served := s.served + [w]);
    assert s.mutexLock == Some(t) && Wakee(s) == None && s.holder == Some(t) && Wakee(r) == Some(w);
    assert w in s.waiting && w != t;
    HeadRemoved(s.waiting);
    assert r.arrived == r.served + r.waiting;
  }

  lemma HeadRemoved(q: seq<nat>)
    requires q != [] && NoDuplicates(q)
    ensures NoDuplicates(q[1..]) && q == [q[0]] + q[1..] && q[0] !in q[1..]
    ensures forall u: nat :: u in q <==> u == q[0] || u in q[1..]
  {
  }

  lemma WakeKeeps(s: State, t: nat)
    requires Invariant(s) && t < |s.threads| && s.threads[t].Waking?
    requires var w := s.threads[t].w; w < |s.threads| && w != t && !s.blockLock[w]
    ensures Invariant(Goto(Goto(s, s.threads[t].w, Woken), t, LeavingRelease))
  {
    var w := s.threads[t].w;
    var r := Goto(Goto(s, w, Woken), t, LeavingRelease);
    assert s.mutexLock == Some(t) && Wakee(s) == Some(w) && Wakee(r) == None;
    assert Waits(s.threads[w]) && s.threads[w] == Asleep by {
      assert !HasLock(s.threads[w]) && !HasBlockLock(s.threads[w]);
    }
  }

  lemma LockingKeeps(s: State, t: nat, a: Action, limit: nat)
    requires Invariant(s) && t < |s.threads|
    requires s.threads[t] in {Entering, Woken, Returning}
    ensures Invariant(Step(s, t, a, limit))
  {
    if s.mutexLock == None {
      match s.threads[t]
      case Entering => LockKeeps(s, t, Deciding);
      case Woken => LockKeeps(s, t, Rechecking);
      case Returning => LockKeeps(s, t, HandingOver);
    }
  }

  lemma UnlockingKeeps(s: State, t: nat, a: Action, limit: nat)
    requires Invariant(s) && t < |s.threads|
    requires s.threads[t] in {Unlocking, LeavingAcquire, LeavingRelease}
    ensures Invariant(Step(s, t, a, limit))
  {
    match s.threads[t]
    case Unlocking => UnlockKeeps(s, t, Blocking);
    case LeavingAcquire => UnlockKeeps(s, t, Holding);
    case LeavingRelease => UnlockKeeps(s, t, Outside);
  }

  lemma SleepingKeeps(s: State, t: nat, a: Action, limit: nat)
    requires Invariant(s) && t < |s.threads|
    requires s.threads[t] in {TakingBlock, Blocking, SwitchedOut, Asleep}
    ensures Invariant(Step(s, t, a, limit))
  {
    match s.threads[t]
    case TakingBlock => BlockLockKeeps(s, t, Unlocking);
    case Blocking => MoveKeeps(s, t, SwitchedOut);
    case SwitchedOut => BlockLockKeeps(s, t, Asleep);
    case Asleep =>
  }

  lemma DecidingKeeps(s: State, t: nat, a: Action, limit: nat)
    requires Invariant(s) && t < |s.threads|
    requires s.threads[t] in {Deciding, Rechecking}
    ensures Invariant(Step(s, t, a, limit))
  {
    if s.threads[t] == Rechecking {
      MoveKeeps(s, t, LeavingAcquire);
    } else if s.holder == None {
      TakeFreeMutexKeeps(s, t);
    } else {
      EnqueueKeeps(s, t);
    }
  }

  lemma CallingKeeps(s: State, t: nat, a: Action, limit: nat)
    requires Invariant(s) && t < |s.threads|
    requires s.threads[t] in {Outside, Holding}
    ensures Invariant(Step(s, t, a, limit))
  {
    if s.threads[t] == Outside {
      MoveKeeps(s, t, Entering);
    } else {
      MoveKeeps(s, t, Returning);
      var r := Step(s, t, a, limit);
      assert r.threads != s.threads || Wakee(r) == Wakee(s);
    }
  }

  lemma StepInvariant(s: State, t: nat, a: Action, limit: nat)
    requires Invariant(s) && t < |s.threads|
    ensures Invariant(Step(s, t, a, limit))
  {
    match s.threads[t]
    case Entering | Woken | Returning => LockingKeeps(s, t, a, limit);
    case Unlocking | LeavingAcquire | LeavingRelease => UnlockingKeeps(s, t, a, limit);
    case TakingBlock | Blocking | SwitchedOut | Asleep => SleepingKeeps(s, t, a, limit);
    case Deciding | Rechecking => DecidingKeeps(s, t, a, limit);
    case Outside | Holding => CallingKeeps(s, t, a, limit);
    case HandingOver => if s.waiting == [] { GiveUpKeeps(s, t); } else { HandOverKeeps(s, t); }
    case Waking(w) => if w < |s.threads| && w != t && !s.blockLock[w] { WakeKeeps(s, t); }
  }

  lemma {:induction false} RunInvariant(s: State, turns: seq<Turn>, limit: nat)
    requires Invariant(s) && ValidSchedule(|s.threads|, turns)
    ensures Invariant(Run(s, turns, limit))
    decreases |turns|
  {
    if turns != [] {
      StepInvariant(s, turns[0].thread, turns[0].action, limit);
      RunInvariant(Step(s, turns[0].thread, turns[0].action, limit), turns[1..], limit);
    }
  }

  // ---- Main results ----

  lemma Reachable(n: nat, turns: seq<Turn>, limit: nat)
    requires ValidSchedule(n, turns)
    ensures Invariant(Run(Init(n), turns, limit)) && |Run(Init(n), turns, limit).threads| == n
  {
    InitInvariant(n);
    RunInvariant(Init(n), turns, limit);
  }

  /** At most one thread has the mutex, and it is the one recorded as Holder. */
  lemma MutualExclusion(n: nat, turns: seq<Turn>, limit: nat, t: nat, u: nat)
    requires ValidSchedule(n, turns) && t < n && u < n
    requires Run(Init(n), turns, limit).threads[t] == Holding && Run(Init(n), turns, limit).threads[u] == Holding
    ensures t == u && Run(Init(n), turns, limit).holder == Some(t)
  {
    Reachable(n, turns, limit);
  }

  /** Fairness: the mutex is handed to waiting threads in exactly the order in which they
      joined the waiting list. */
  lemma FirstComeFirstServed(n: nat, turns: seq<Turn>, limit: nat)
    requires ValidSchedule(n, turns)
    ensures var s := Run(Init(n), turns, limit);
            s.served <= s.arrived && s.arrived[|s.served|..] == s.waiting
  {
    Reachable(n, turns, limit);
  }

  /** No newcomer overtakes: in every reachable state in which threads wait, a thread that looks
      at Holder joins the list behind them; it takes the mutex exactly when nobody has it, and then nobody
      waits. */
  lemma NewcomersQueueUp(n: nat, turns: seq<Turn>, limit: nat, t: nat, a: Action)
    requires ValidSchedule(n, turns) && t < n && Run(Init(n), turns, limit).threads[t] == Deciding
    ensures var s := Run(Init(n), turns, limit);
            && (s.waiting != [] ==> Step(s, t, a, limit).waiting == s.waiting + [t])
            && (Step(s, t, a, limit).holder == Some(t) <==> s.holder == None)
            && (s.holder == None ==> s.waiting == [])
  {
    Reachable(n, turns, limit);
    var s := Run(Init(n), turns, limit);
    assert s.holder != Some(t);
  }

  /** The assertion of ThreadUnblock holds: whenever the waker gets the BlockLock of the thread
      it wakes, that thread is asleep, with state Blocked. And a woken thread always finds
      itself the holder, so no thread joins the waiting list a second time. */
  lemma WakeUpIsSafe(n: nat, turns: seq<Turn>, limit: nat, t: nat)
    requires ValidSchedule(n, turns) && t < n
    ensures var s := Run(Init(n), turns, limit);
            && (s.threads[t].Waking? ==>
                  (var w := s.threads[t].w; w < n && w != t && (!s.blockLock[w] <==> s.threads[w] == Asleep)))
            && (s.threads[t] == Rechecking ==> s.holder == Some(t))
            && (s.threads[t] == Outside ==> s.holder != Some(t))
  {
    Reachable(n, turns, limit);
    var s := Run(Init(n), turns, limit);
    if s.threads[t].Waking? {
      assert s.mutexLock == Some(t) && Wakee(s) == Some(s.threads[t].w);
      assert !HasLock(s.threads[s.threads[t].w]);
    }
  }

  // ---- No wake-up is lost ----

  /** How far a thread is from being outside when it no longer acquires. */
  function Distance(p: Pc): nat {
    match p
    case Entering => 15 case Deciding => 14 case TakingBlock => 13 case Unlocking => 12
    case Blocking => 11 case SwitchedOut => 10 case Asleep => 9 case Woken => 8
    case Rechecking => 7 case LeavingAcquire => 6 case Holding => 5 case Returning => 4
    case HandingOver => 3 case Waking(_) => 2 case LeavingRelease => 1 case Outside => 0
  }

  function Total(q: seq<Pc>): nat {
    if q == [] then 0 else Distance(q[0]) + Total(q[1..])
  }

  lemma {:induction false} TotalUpdate(q: seq<Pc>, t: nat, p: Pc)
    requires t < |q|
    ensures Total(q[t := p]) == Total(q) - Distance(q[t]) + Distance(p)
    decreases |q|
  {
    if t == 0 {
      assert q[t := p][1..] == q[1..];
    } else {
      assert q[t := p][1..] == q[1..][t - 1 := p];
      TotalUpdate(q[1..], t - 1, p);
    }
  }

  lemma {:induction false} TotalZero(q: seq<Pc>, t: nat)
    requires Total(q) == 0 && t < |q|
    ensures q[t] == Outside
    decreases |q|
  {
    if t > 0 {
      TotalZero(q[1..], t - 1);
    }
  }

  /** How often the holder still has to release. */
  function Held(s: State): nat { if s.holder.Some? then s.depth else 0 }

  /** An upper bound on the steps left when no thread acquires anew. */
  function Work(s: State): nat { Total(s.threads) + Held(s) }

  /** Thread `t` has moved on, by more than the holder may have gained. */
  predicate MovedOn(s: State, t: nat, r: State)
    requires t < |s.threads|
  {
    && |r.threads| == |s.threads| && r.threads == s.threads[t := r.threads[t]]
    && Distance(r.threads[t]) + Held(r) < Distance(s.threads[t]) + Held(s)
  }

  lemma LockStepsDescend(s: State, t: nat, limit: nat)
    requires Sound(s) && t < |s.threads|
    requires s.threads[t] in {Outside, Entering, Woken, Returning, Unlocking, LeavingAcquire, LeavingRelease}
    ensures var r := Step(s, t, Release, limit); r == s || MovedOn(s, t, r)
  {
  }

  lemma SleepStepsDescend(s: State, t: nat, limit: nat)
    requires Sound(s) && t < |s.threads|
    requires s.threads[t] in {TakingBlock, Blocking, SwitchedOut, Asleep}
    ensures var r := Step(s, t, Release, limit); r == s || MovedOn(s, t, r)
  {
  }

  lemma OwnerStepsDescend(s: State, t: nat, limit: nat)
    requires Sound(s) && t < |s.threads| && s.threads[t] in {Deciding, Rechecking, Holding, HandingOver}
    requires s.threads[t] != Deciding ==> s.holder == Some(t) && s.depth >= 1
    ensures var r := Step(s, t, Release, limit);
            MovedOn(s, t, r) || (r.threads == s.threads && Held(r) < Held(s))
  {
  }

  lemma WakingDescends(s: State, t: nat, limit: nat)
    requires Invariant(s) && t < |s.threads| && s.threads[t].Waking?
    ensures var r := Step(s, t, Release, limit); r == s || Work(r) < Work(s)
  {
    var w := s.threads[t].w;
    assert s.mutexLock == Some(t) && Wakee(s) == Some(w) && !HasLock(s.threads[w]) && Waits(s.threads[w]);
    if !s.blockLock[w] {
      assert s.threads[w] == Asleep;
      TotalUpdate(s.threads, w, Woken);
      TotalUpdate(s.threads[w := Woken], t, LeavingRelease);
    }
  }

  /** A thread that no longer acquires either stays where it is or leaves less work to do. */
  lemma StepDescends(s: State, t: nat, limit: nat)
    requires Invariant(s) && t < |s.threads|
    ensures var r := Step(s, t, Release, limit); r == s || Work(r) < Work(s)
  {
    if s.threads[t].Waking? {
      WakingDescends(s, t, limit);
    } else {
      if s.threads[t] in {TakingBlock, Blocking, SwitchedOut, Asleep} {
        SleepStepsDescend(s, t, limit);
      } else if s.threads[t] in {Deciding, Rechecking, Holding, HandingOver} {
        OwnerStepsDescend(s, t, limit);
      } else {
        LockStepsDescend(s, t, limit);
      }
      TotalUpdate(s.threads, t, Step(s, t, Release, limit).threads[t]);
    }
  }

  /** The thread that has MutexLock moves, or waits for the BlockLock of a thread that moves. */
  lemma LockHolderMoves(s: State, limit: nat) returns (u: nat)
    requires Invariant(s) && s.mutexLock.Some?
    ensures u < |s.threads| && Step(s, u, Release, limit) != s
  {
    u := s.mutexLock.value;
    assert HasLock(s.threads[u]);
    if s.threads[u].Waking? {
      var w := s.threads[u].w;
      assert Wakee(s) == Some(w) && !HasLock(s.threads[w]) && Waits(s.threads[w]);
      if s.blockLock[w] {
        u := w;
      }
      assert Step(s, u, Release, limit).threads[u] != s.threads[u];
    } else {
      assert Step(s, u, Release, limit).threads[u] != s.threads[u];
    }
  }

  /** With MutexLock free, a sleeping thread has a holder to wait for that is not asleep. */
  lemma AnyoneMoves(s: State, t: nat, limit: nat) returns (u: nat)
    requires Invariant(s) && s.mutexLock == None && t < |s.threads| && s.threads[t] != Outside
    ensures u < |s.threads| && Step(s, u, Release, limit) != s
  {
    u := t;
    if s.threads[t] == Asleep {
      assert Wakee(s) == None && t in s.waiting;
      u := s.holder.value;
      assert Owns(s.threads[u]);
    }
    assert !HasLock(s.threads[u]);
    if s.threads[u] == Holding && s.depth > 1 {
      assert Step(s, u, Release, limit).depth != s.depth;
    } else {
      assert Step(s, u, Release, limit).threads[u] != s.threads[u];
    }
  }

  /** No lost wake-up: as long as some thread is inside MutexAcquire, MutexRelease or the
      critical section, asleep or not, some thread can take a step that is not an acquire. */
  lemma SomeoneMoves(s: State, t: nat, limit: nat) returns (u: nat)
    requires Invariant(s) && t < |s.threads| && s.threads[t] != Outside
    ensures u < |s.threads| && Work(Step(s, u, Release, limit)) < Work(s) && Invariant(Step(s, u, Release, limit))
  {
    if s.mutexLock == None {
      u := AnyoneMoves(s, t, limit);
    } else {
      u := LockHolderMoves(s, limit);
    }
    StepDescends(s, u, limit);
    StepInvariant(s, u, Release, limit);
  }

  /** The run contains no new acquire. */
  predicate OnlyReleases(turns: seq<Turn>) {
    forall k :: 0 <= k < |turns| ==> turns[k].action == Release
  }

  lemma {:induction false} DrainFrom(s: State, limit: nat) returns (turns: seq<Turn>)
    requires Invariant(s)
    ensures ValidSchedule(|s.threads|, turns) && OnlyReleases(turns)
    ensures Total(Run(s, turns, limit).threads) == 0
    decreases Work(s)
  {
    turns := [];
    if t: nat :| t < |s.threads| && s.threads[t] != Outside {
      var u := SomeoneMoves(s, t, limit);
      var r := Step(s, u, Release, limit);
      var rest := DrainFrom(r, limit);
      turns := [Turn(u, Release)] + rest;
      RunFirst(s, u, rest, limit);
    } else {
      AllOutside(s.threads);
    }
  }

  lemma RunFirst(s: State, u: nat, rest: seq<Turn>, limit: nat)
    requires Sound(s) && u < |s.threads| && ValidSchedule(|s.threads|, rest)
    ensures ValidSchedule(|s.threads|, [Turn(u, Release)] + rest)
    ensures OnlyReleases(rest) ==> OnlyReleases([Turn(u, Release)] + rest)
    ensures Run(s, [Turn(u, Release)] + rest, limit) == Run(Step(s, u, Release, limit), rest, limit)
  {
    assert ([Turn(u, Release)] + rest)[1..] == rest;
  }

  lemma {:induction false} AllOutside(q: seq<Pc>)
    requires forall t :: 0 <= t < |q| ==> q[t] == Outside
    ensures Total(q) == 0
    decreases |q|
  {
    if q != [] {
      AllOutside(q[1..]);
    }
  }

  /** Whatever has happened, if from now on no thread acquires, a run exists that takes every
      thread out, with every waiter served, in order, and the mutex free. */
  lemma EveryWaiterServed(n: nat, before: seq<Turn>, limit: nat) returns (after: seq<Turn>)
    requires ValidSchedule(n, before)
    ensures ValidSchedule(n, after) && OnlyReleases(after)
    ensures var s := Run(Run(Init(n), before, limit), after, limit);
            && (forall t :: 0 <= t < n ==> s.threads[t] == Outside)
            && s.holder == None && s.served == s.arrived
            && Run(Init(n), before, limit).arrived <= s.served
  {
    Reachable(n, before, limit);
    var now := Run(Init(n), before, limit);
    after := DrainFrom(now, limit);
    RunInvariant(now, after, limit);
    ArrivedGrows(now, after, limit);
    var s := Run(now, after, limit);
    forall t | 0 <= t < n ensures s.threads[t] == Outside {
      TotalZero(s.threads, t);
    }
    IdleMeansServed(s);
  }

  lemma {:induction false} ArrivedGrows(s: State, turns: seq<Turn>, limit: nat)
    requires Sound(s) && ValidSchedule(|s.threads|, turns)
    ensures s.arrived <= Run(s, turns, limit).arrived
    decreases |turns|
  {
    if turns != [] {
      ArrivedGrows(Step(s, turns[0].thread, turns[0].action, limit), turns[1..], limit);
    }
  }

  // ---- Every fair run drains ----

  /** How many turns of a run change the state. */
  function Changes(s: State, turns: seq<Turn>, limit: nat): nat
    requires Sound(s) && ValidSchedule(|s.threads|, turns)
    decreases |turns|
  {
    if turns == [] then 0
    else
      var r := Step(s, turns[0].thread, turns[0].action, limit);
      (if r == s then 0 else 1) + Changes(r, turns[1..], limit)
  }

  /** In every run without new acquires the turns that change anything are at most as many as
      there was work; a run without a change has tried every turn in vain. */
  lemma {:induction false} ChangesBounded(s: State, turns: seq<Turn>, limit: nat)
    requires Invariant(s) && ValidSchedule(|s.threads|, turns) && OnlyReleases(turns)
    ensures Changes(s, turns, limit) + Work(Run(s, turns, limit)) <= Work(s)
    ensures Changes(s, turns, limit) == 0 ==> Run(s, turns, limit) == s && InVain(s, turns, limit)
    decreases |turns|
  {
    if turns != [] {
      var t := turns[0].thread;
      var r := Step(s, t, Release, limit);
      StepInvariant(s, t, Release, limit);
      StepDescends(s, t, limit);
      ChangesBounded(r, turns[1..], limit);
      if r == s && InVain(s, turns[1..], limit) {
        InVainCons(s, turns, limit);
      }
    }
  }

  /** No turn of the run changes state `s`. */
  predicate InVain(s: State, turns: seq<Turn>, limit: nat)
    requires Sound(s) && ValidSchedule(|s.threads|, turns)
  {
    forall k :: 0 <= k < |turns| ==> Step(s, turns[k].thread, Release, limit) == s
  }

  lemma InVainCons(s: State, turns: seq<Turn>, limit: nat)
    requires Sound(s) && ValidSchedule(|s.threads|, turns) && turns != []
    requires Step(s, turns[0].thread, Release, limit) == s && InVain(s, turns[1..], limit)
    ensures InVain(s, turns, limit)
  {
    forall k | 0 < k < |turns| ensures Step(s, turns[k].thread, Release, limit) == s {
      assert turns[k] == turns[1..][k - 1];
    }
  }

  predicate Idle(s: State) { forall t :: 0 <= t < |s.threads| ==> s.threads[t] == Outside }

  /** A state that no thread can change without a new acquire has every thread outside. */
  lemma NoChangeMeansIdle(s: State, limit: nat)
    requires Invariant(s)
    ensures (forall t :: 0 <= t < |s.threads| ==> Step(s, t, Release, limit) == s) <==> Idle(s)
  {
    if t: nat :| t < |s.threads| && s.threads[t] != Outside {
      var u := SomeoneMoves(s, t, limit);
      assert Step(s, u, Release, limit) != s;
    }
  }

  /** Every thread gets a turn. */
  predicate IsRound(n: nat, turns: seq<Turn>) {
    ValidSchedule(n, turns) && OnlyReleases(turns) && forall t: nat :: t < n ==> GetsTurn(turns, t)
  }

  predicate GetsTurn(turns: seq<Turn>, t: nat) { exists k :: 0 <= k < |turns| && turns[k].thread == t }

  lemma RoundDescends(s: State, turns: seq<Turn>, limit: nat)
    requires Invariant(s) && IsRound(|s.threads|, turns)
    ensures Invariant(Run(s, turns, limit))
    ensures Run(s, turns, limit) == s ==> Idle(s)
    ensures Run(s, turns, limit) != s ==> Work(Run(s, turns, limit)) < Work(s)
  {
    RunInvariant(s, turns, limit);
    ChangesBounded(s, turns, limit);
    if Changes(s, turns, limit) == 0 {
      forall t | 0 <= t < |s.threads| ensures Step(s, t, Release, limit) == s {
        assert GetsTurn(turns, t);
      }
      NoChangeMeansIdle(s, limit);
    }
  }

  predicate AreRounds(n: nat, rounds: seq<seq<Turn>>) {
    forall k :: 0 <= k < |rounds| ==> IsRound(n, rounds[k])
  }

  function RunRounds(s: State, rounds: seq<seq<Turn>>, limit: nat): (r: State)
    requires Sound(s) && AreRounds(|s.threads|, rounds)
    ensures |r.threads| == |s.threads|
    decreases |rounds|
  {
    if rounds == [] then s
    else
      assert IsRound(|s.threads|, rounds[0]);
      RunRounds(Run(s, rounds[0], limit), rounds[1..], limit)
  }

  /** After some number of rounds every thread is outside, or that much work has been done. */
  lemma {:induction false} RoundsDescend(s: State, rounds: seq<seq<Turn>>, limit: nat)
    requires Invariant(s) && AreRounds(|s.threads|, rounds)
    ensures var r := RunRounds(s, rounds, limit);
            Invariant(r) && s.arrived <= r.arrived && (Idle(r) || Work(r) + |rounds| <= Work(s))
    decreases |rounds|
  {
    if rounds != [] {
      assert IsRound(|s.threads|, rounds[0]);
      var next := Run(s, rounds[0], limit);
      RoundDescends(s, rounds[0], limit);
      ArrivedGrows(s, rounds[0], limit);
      RoundsDescend(next, rounds[1..], limit);
      if next == s {
        IdleStays(s, rounds[1..], limit);
      }
    }
  }

  lemma {:induction false} IdleStays(s: State, rounds: seq<seq<Turn>>, limit: nat)
    requires Invariant(s) && Idle(s) && AreRounds(|s.threads|, rounds)
    ensures RunRounds(s, rounds, limit) == s
    decreases |rounds|
  {
    if rounds != [] {
      assert IsRound(|s.threads|, rounds[0]);
      IdleRun(s, rounds[0], limit);
      IdleStays(s, rounds[1..], limit);
    }
  }

  lemma {:induction false} IdleRun(s: State, turns: seq<Turn>, limit: nat)
    requires Sound(s) && Idle(s) && ValidSchedule(|s.threads|, turns) && OnlyReleases(turns)
    ensures Run(s, turns, limit) == s
    decreases |turns|
  {
    if turns != [] {
      IdleRun(s, turns[1..], limit);
    }
  }

  /** Liveness under every fair scheduler: after any run, once no thread acquires anew, as soon
      as every thread has had a turn as often as there is work left, whatever the order of the
      turns, all threads are outside, the mutex is free, and everyone who ever joined the
      waiting list has been served, in order. */
  lemma EveryFairRunDrains(n: nat, before: seq<Turn>, rounds: seq<seq<Turn>>, limit: nat)
    requires ValidSchedule(n, before) && AreRounds(n, rounds)
    requires |rounds| >= Work(Run(Init(n), before, limit))
    ensures var now := Run(Init(n), before, limit);
            var s := RunRounds(now, rounds, limit);
            Idle(s) && s.holder == None && s.served == s.arrived && now.arrived <= s.served
  {
    Reachable(n, before, limit);
    var now := Run(Init(n), before, limit);
    RoundsDescend(now, rounds, limit);
    IdleMeansServed(RunRounds(now, rounds, limit));
  }

  lemma IdleMeansServed(s: State)
    requires Invariant(s) && (Idle(s) || Work(s) == 0)
    ensures Idle(s) && s.holder == None && s.served == s.arrived
  {
    if Work(s) == 0 {
      forall t | 0 <= t < |s.threads| ensures s.threads[t] == Outside {
        TotalZero(s.threads, t);
      }
    }
    assert s.holder == None by {
      if s.holder.Some? {
        assert s.threads[s.holder.value] == Outside;
      }
    }
  }

  // ---- The way of a thread ----

  /** Where a thread can be next. */
  predicate Follows(p: Pc, q: Pc) {
    match p
    case Outside => q == Entering
    case Entering => q == Deciding
    case Deciding => q in {LeavingAcquire, TakingBlock}
    case TakingBlock => q == Unlocking
    case Unlocking => q == Blocking
    case Blocking => q == SwitchedOut
    case SwitchedOut => q == Asleep
    case Asleep => q == Woken
    case Woken => q == Rechecking
    case Rechecking => q == LeavingAcquire
    case LeavingAcquire => q == Holding
    case Holding => q == Returning
    case Returning => q == HandingOver
    case HandingOver => q == LeavingRelease || q.Waking?
    case Waking(_) => q == LeavingRelease
    case LeavingRelease => q == Outside
  }

  /** In every reachable state a thread moves only along its way, and only by its own steps,
      except that a sleeper is woken by the thread that hands it the mutex. In particular it
      comes out of MutexAcquire only holding the mutex, and is outside again only after
      MutexRelease. */
  lemma WayOfThread(n: nat, turns: seq<Turn>, limit: nat, t: nat, u: nat, a: Action)
    requires ValidSchedule(n, turns) && t < n && u < n
    ensures var s := Run(Init(n), turns, limit);
            var r := Step(s, u, a, limit);
            && (r.threads[t] != s.threads[t] ==> Follows(s.threads[t], r.threads[t]))
            && (r.threads[t] != s.threads[t] && u != t ==> s.threads[u] == Waking(t) && r.threads[t] == Woken && r.holder == Some(t))
  {
    Reachable(n, turns, limit);
    WayFrom(Run(Init(n), turns, limit), limit, t, u, a);
  }

  lemma WayFrom(s: State, limit: nat, t: nat, u: nat, a: Action)
    requires Invariant(s) && t < |s.threads| && u < |s.threads|
    ensures var r := Step(s, u, a, limit);
            && (r.threads[t] != s.threads[t] ==> Follows(s.threads[t], r.threads[t]))
            && (r.threads[t] != s.threads[t] && u != t ==> s.threads[u] == Waking(t) && r.threads[t] == Woken && r.holder == Some(t))
  {
    InvariantPlaces(s, u);
    if s.threads[u].Waking? {
      WakeeAsleep(s, u);
    }
    WayOfStep(s, limit, t, u, a);
  }

  lemma WayOfStep(s: State, limit: nat, t: nat, u: nat, a: Action)
    requires Sound(s) && t < |s.threads| && u < |s.threads| && Placed(s, u)
    requires s.threads[u].Waking? ==> s.holder == Some(s.threads[u].w) && (!s.blockLock[s.threads[u].w] ==> s.threads[s.threads[u].w] == Asleep)
    ensures var r := Step(s, u, a, limit);
            && (r.threads[t] != s.threads[t] ==> Follows(s.threads[t], r.threads[t]))
            && (r.threads[t] != s.threads[t] && u != t ==> s.threads[u] == Waking(t) && r.threads[t] == Woken && r.holder == Some(t))
  {
  }

  lemma WakeeAsleep(s: State, u: nat)
    requires Invariant(s) && u < |s.threads| && s.threads[u].Waking?
    ensures var w := s.threads[u].w;
            && w < |s.threads| && w != u && s.holder == Some(w) && Waits(s.threads[w]) && !HasLock(s.threads[w])
            && (!s.blockLock[w] <==> s.threads[w] == Asleep)
  {
    assert s.mutexLock == Some(u) && Wakee(s) == Some(s.threads[u].w);
    assert !HasLock(s.threads[s.threads[u].w]);
  }

  /** What can keep a thread from moving, in every reachable state: it sleeps, the spinlock it
      is about to take is taken, it is outside and does not acquire, or it holds the mutex as
      deeply as is permitted and acquires it again. */
  lemma HeldUpExactly(n: nat, turns: seq<Turn>, limit: nat, t: nat, a: Action)
    requires ValidSchedule(n, turns) && t < n
    ensures var s := Run(Init(n), turns, limit);
            var p := s.threads[t];
            Step(s, t, a, limit) == s <==>
              || p == Asleep
              || (p in {Entering, Woken, Returning} && s.mutexLock != None)
              || (p.Waking? && p.w < n && s.blockLock[p.w])
              || (p == Outside && a == Release)
              || (p == Holding && a == Acquire && s.depth >= limit)
  {
    Reachable(n, turns, limit);
    HeldUpFrom(Run(Init(n), turns, limit), limit, t, a);
  }

  predicate HeldUp(s: State, t: nat, a: Action, limit: nat)
    requires Sound(s) && t < |s.threads|
  {
    var p := s.threads[t];
    || p == Asleep
    || (p in {Entering, Woken, Returning} && s.mutexLock != None)
    || (p.Waking? && p.w < |s.threads| && s.blockLock[p.w])
    || (p == Outside && a == Release)
    || (p == Holding && a == Acquire && s.depth >= limit)
  }

  /** What the invariant says about the place of one thread. */
  predicate Placed(s: State, t: nat)
    requires Sound(s) && t < |s.threads|
  {
    var p := s.threads[t];
    && (p.Waking? ==> p.w < |s.threads| && p.w != t)
    && (p in {Holding, Rechecking} ==> s.holder == Some(t) && s.depth >= 1)
    && (p == Outside ==> s.holder != Some(t))
    && (p == TakingBlock ==> !s.blockLock[t])
  }

  lemma InvariantPlaces(s: State, t: nat)
    requires Invariant(s) && t < |s.threads|
    ensures Placed(s, t)
  {
    if s.threads[t].Waking? {
      WakeeAsleep(s, t);
    }
  }

  lemma HeldUpStays(s: State, limit: nat, t: nat, a: Action)
    requires Sound(s) && t < |s.threads| && Placed(s, t) && HeldUp(s, t, a, limit)
    ensures Step(s, t, a, limit) == s
  {
  }

  lemma FreeMoves(s: State, limit: nat, t: nat, a: Action)
    requires Sound(s) && t < |s.threads| && Placed(s, t) && !HeldUp(s, t, a, limit)
    ensures Step(s, t, a, limit) != s
  {
    var r := Step(s, t, a, limit);
    assert r.threads[t] != s.threads[t] || r.depth != s.depth;
  }

  lemma HeldUpFrom(s: State, limit: nat, t: nat, a: Action)
    requires Invariant(s) && t < |s.threads|
    ensures Step(s, t, a, limit) == s <==> HeldUp(s, t, a, limit)
  {
    InvariantPlaces(s, t);
    if HeldUp(s, t, a, limit) {
      HeldUpStays(s, limit, t, a);
    } else {
      FreeMoves(s, limit, t, a);
    }
  }

  // ---- Every acquire gets through ----

  /** The thread is inside MutexAcquire. */
  predicate Acquiring(p: Pc) {
    p in {Entering, Deciding, TakingBlock, Unlocking, Blocking, SwitchedOut, Asleep, Woken, Rechecking, LeavingAcquire}
  }

  /** At some point of the run thread `t` is at `p`. */
  predicate Passes(s: State, turns: seq<Turn>, t: nat, p: Pc, limit: nat)
    requires Sound(s) && ValidSchedule(|s.threads|, turns) && t < |s.threads|
    decreases |turns|
  {
    s.threads[t] == p || (turns != [] && Passes(Step(s, turns[0].thread, turns[0].action, limit), turns[1..], t, p, limit))
  }

  /** In every run a thread that acquires comes out of MutexAcquire holding the mutex. */
  lemma {:induction false} ComesOutHolding(s: State, turns: seq<Turn>, t: nat, limit: nat)
    requires Invariant(s) && ValidSchedule(|s.threads|, turns) && t < |s.threads| && Acquiring(s.threads[t])
    ensures Passes(s, turns, t, Holding, limit) || Acquiring(Run(s, turns, limit).threads[t])
    decreases |turns|
  {
    if turns != [] {
      var r := Step(s, turns[0].thread, turns[0].action, limit);
      AcquiringStep(s, t, turns[0].thread, turns[0].action, limit);
      if Acquiring(r.threads[t]) {
        ComesOutHolding(r, turns[1..], t, limit);
      }
    }
  }

  lemma AcquiringStep(s: State, t: nat, u: nat, a: Action, limit: nat)
    requires Invariant(s) && t < |s.threads| && u < |s.threads| && Acquiring(s.threads[t])
    ensures var r := Step(s, u, a, limit);
            Invariant(r) && (Acquiring(r.threads[t]) || r.threads[t] == Holding)
  {
    WayFrom(s, limit, t, u, a);
    StepInvariant(s, u, a, limit);
  }

  function Flat(rounds: seq<seq<Turn>>): seq<Turn> {
    if rounds == [] then [] else rounds[0] + Flat(rounds[1..])
  }

  lemma {:induction false} RunAppend(s: State, first: seq<Turn>, second: seq<Turn>, limit: nat)
    requires Sound(s) && ValidSchedule(|s.threads|, first) && ValidSchedule(|s.threads|, second)
    ensures ValidSchedule(|s.threads|, first + second)
    ensures Run(s, first + second, limit) == Run(Run(s, first, limit), second, limit)
    decreases |first|
  {
    if first == [] {
      assert first + second == second;
    } else {
      assert (first + second)[1..] == first[1..] + second;
      RunAppend(Step(s, first[0].thread, first[0].action, limit), first[1..], second, limit);
    }
  }

  lemma {:induction false} RoundsFlat(s: State, rounds: seq<seq<Turn>>, limit: nat)
    requires Sound(s) && AreRounds(|s.threads|, rounds)
    ensures ValidSchedule(|s.threads|, Flat(rounds)) && Run(s, Flat(rounds), limit) == RunRounds(s, rounds, limit)
    decreases |rounds|
  {
    if rounds != [] {
      assert IsRound(|s.threads|, rounds[0]);
      RoundsFlat(Run(s, rounds[0], limit), rounds[1..], limit);
      RunAppend(s, rounds[0], Flat(rounds[1..]), limit);
    }
  }

  /** Every acquire gets through: after any run, a thread that is outside and acquires the mutex
      holds it at some point of every fair continuation without further acquires. */
  lemma EveryAcquireGetsThrough(n: nat, before: seq<Turn>, t: nat, rounds: seq<seq<Turn>>, limit: nat)
    requires ValidSchedule(n, before) && t < n && Run(Init(n), before, limit).threads[t] == Outside && AreRounds(n, rounds)
    requires |rounds| >= Work(Step(Run(Init(n), before, limit), t, Acquire, limit))
    ensures var s := Step(Run(Init(n), before, limit), t, Acquire, limit);
            ValidSchedule(n, Flat(rounds)) && Passes(s, Flat(rounds), t, Holding, limit)
  {
    Reachable(n, before, limit);
    var now := Run(Init(n), before, limit);
    var s := Step(now, t, Acquire, limit);
    StepInvariant(now, t, Acquire, limit);
    EntersFromOutside(now, t, limit);
    RoundsDescend(s, rounds, limit);
    IdleMeansServed(RunRounds(s, rounds, limit));
    RoundsFlat(s, rounds, limit);
    ComesOutHolding(s, Flat(rounds), t, limit);
  }

  lemma EntersFromOutside(s: State, t: nat, limit: nat)
    requires Invariant(s) && t < |s.threads| && s.threads[t] == Outside
    ensures Step(s, t, Acquire, limit).threads[t] == Entering
  {
    assert s.holder != Some(t);
  }

  // ---- Nesting ----

  /** A thread that has been given the mutex and not returned from MutexAcquire holds it once. */
  predicate OnceHeld(s: State) {
    && (forall t :: 0 <= t < |s.threads| && s.threads[t] in {Woken, Rechecking, LeavingAcquire} ==> s.depth == 1)
    && (Wakee(s).Some? ==> s.depth == 1)
  }

  lemma StepOnceHeld(s: State, t: nat, a: Action, limit: nat)
    requires Invariant(s) && OnceHeld(s) && t < |s.threads|
    ensures OnceHeld(Step(s, t, a, limit))
  {
    var r := Step(s, t, a, limit);
    if r.depth != 1 {
      if r.depth == s.depth {
        NoneNewlyGiven(s, t, a, limit);
      } else {
        HolderRecounts(s, t, a, limit);
      }
    }
  }

  /** Only the thread that holds the mutex changes its depth to anything but 1. */
  lemma HolderRecounts(s: State, t: nat, a: Action, limit: nat)
    requires Invariant(s) && t < |s.threads|
    requires Step(s, t, a, limit).depth != s.depth && Step(s, t, a, limit).depth != 1
    ensures var r := Step(s, t, a, limit);
            Wakee(r) == None && forall u :: 0 <= u < |r.threads| ==> r.threads[u] !in {Woken, Rechecking, LeavingAcquire}
  {
    InvariantPlaces(s, t);
    var r := Step(s, t, a, limit);
    assert s.threads[t] == Holding && s.holder == Some(t);
    assert r.threads == s.threads && Wakee(r) == Wakee(s);
    forall u | 0 <= u < |r.threads| ensures r.threads[u] !in {Woken, Rechecking, LeavingAcquire} {
      assert u != t ==> !Owns(s.threads[u]);
    }
  }

  lemma NoneNewlyGiven(s: State, t: nat, a: Action, limit: nat)
    requires Invariant(s) && OnceHeld(s) && t < |s.threads| && s.depth != 1 && Step(s, t, a, limit).depth == s.depth
    ensures var r := Step(s, t, a, limit);
            Wakee(r) == None && forall u :: 0 <= u < |r.threads| ==> r.threads[u] !in {Woken, Rechecking, LeavingAcquire}
  {
    var r := Step(s, t, a, limit);
    assert Wakee(s) == None;
    StepInvariant(s, t, a, limit);
    forall u | 0 <= u < |r.threads| ensures r.threads[u] !in {Woken, Rechecking, LeavingAcquire} {
      WayFrom(s, limit, u, t, a);
      if r.threads[u] != s.threads[u] && u != t {
        WakeeAsleep(s, t);
      }
    }
    assert s.threads[t] != HandingOver || s.waiting == [];
    if Wakee(r).Some? {
      var v := r.mutexLock.value;
      WayFrom(s, limit, v, t, a);
    }
  }

  lemma {:induction false} RunOnceHeld(s: State, turns: seq<Turn>, limit: nat)
    requires Invariant(s) && OnceHeld(s) && ValidSchedule(|s.threads|, turns)
    ensures OnceHeld(Run(s, turns, limit))
    decreases |turns|
  {
    if turns != [] {
      var r := Step(s, turns[0].thread, turns[0].action, limit);
      StepInvariant(s, turns[0].thread, turns[0].action, limit);
      StepOnceHeld(s, turns[0].thread, turns[0].action, limit);
      RunOnceHeld(r, turns[1..], limit);
    }
  }

  /** How deeply a thread that holds the mutex `d` times holds it after its own calls in a run;
      0 from the release on that gives it up. Calls of other threads do not count. */
  function Nested(d: nat, turns: seq<Turn>, t: nat, limit: nat): nat
    decreases |turns|
  {
    if turns == [] || d == 0 then d
    else if turns[0].thread != t then Nested(d, turns[1..], t, limit)
    else if turns[0].action == Release then Nested(d - 1, turns[1..], t, limit)
    else Nested(if d < limit then d + 1 else d, turns[1..], t, limit)
  }

  /** After any run, a thread about to return from MutexAcquire holds the mutex once. From then
      on, whatever others do, it holds it as often as its own nested calls say, until the
      release that gives it up. */
  lemma NestingCounted(n: nat, before: seq<Turn>, t: nat, after: seq<Turn>, limit: nat)
    requires ValidSchedule(n, before) && ValidSchedule(n, after) && t < n
    ensures var s := Run(Init(n), before, limit);
            && (s.threads[t] == LeavingAcquire ==> s.depth == 1)
            && (s.threads[t] == Holding && Nested(s.depth, after, t, limit) > 0 ==>
                  var r := Run(s, after, limit);
                  r.threads[t] == Holding && r.holder == Some(t) && r.depth == Nested(s.depth, after, t, limit))
  {
    Reachable(n, before, limit);
    InitOnceHeld(n);
    InitInvariant(n);
    RunOnceHeld(Init(n), before, limit);
    var s := Run(Init(n), before, limit);
    if s.threads[t] == Holding && Nested(s.depth, after, t, limit) > 0 {
      StaysHolding(s, after, t, limit);
    }
  }

  lemma InitOnceHeld(n: nat)
    ensures OnceHeld(Init(n))
  {
  }

  lemma HoldingStep(s: State, t: nat, u: nat, a: Action, limit: nat)
    requires Invariant(s) && t < |s.threads| && u < |s.threads| && s.threads[t] == Holding
    ensures var r := Step(s, u, a, limit);
            && s.depth >= 1
            && (u != t ==> r.threads[t] == Holding && r.depth == s.depth)
            && (u == t && a == Acquire ==> r.threads[t] == Holding && r.depth == if s.depth < limit then s.depth + 1 else s.depth)
            && (u == t && a == Release && s.depth > 1 ==> r.threads[t] == Holding && r.depth == s.depth - 1)
            && (u == t && a == Release && s.depth == 1 ==> r.threads[t] == Returning)
  {
    assert s.holder == Some(t);
    if u != t {
      WayFrom(s, limit, t, u, a);
      assert !Owns(s.threads[u]);
    }
  }

  lemma {:induction false} StaysHolding(s: State, turns: seq<Turn>, t: nat, limit: nat)
    requires Invariant(s) && ValidSchedule(|s.threads|, turns) && t < |s.threads| && s.threads[t] == Holding
    requires Nested(s.depth, turns, t, limit) > 0
    ensures var r := Run(s, turns, limit);
            r.threads[t] == Holding && r.holder == Some(t) && r.depth == Nested(s.depth, turns, t, limit)
    decreases |turns|
  {
    assert s.holder == Some(t) && s.depth >= 1;
    if turns != [] {
      var u, a := turns[0].thread, turns[0].action;
      HoldingStep(s, t, u, a, limit);
      StepInvariant(s, u, a, limit);
      StaysHolding(Step(s, u, a, limit), turns[1..], t, limit);
    }
  }
}
