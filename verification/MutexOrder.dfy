/** The ordering protocol of the ACPI subsystem mutexes, for any number of threads and any
    number of mutexes (ACPI_NUM_MUTEX of them in this subsystem).

    The only state the protocol consults is the mutex table, which records for every mutex
    the thread that owns it (`None` stands for ACPI_MUTEX_NOT_ACQUIRED). A request that
    respects the order is accepted and the thread waits until the mutex is free; every other
    request is refused with the status code that names the violation. */
module MutexOrder {
  import opened Options

  const ACPI_NUM_MUTEX: nat := 8

  type Thread = nat

  type Owner = Option<Thread>

  datatype Status = AE_OK | AE_ACQUIRE_DEADLOCK | AE_RELEASE_DEADLOCK | AE_NOT_ACQUIRED | AE_ALREADY_ACQUIRED

  /** The mutex table, and for each thread that waits the mutex it waits for. */
  datatype State = State(owner: seq<Owner>, waiting: map<Thread, nat>)

  function Init(n: nat): State { State(seq(n, _ => None), map[]) }

  predicate Owns(s: State, t: Thread, m: nat) { m < |s.owner| && s.owner[m] == Some(t) }

  /** Some mutex above `m` is owned by `t`. */
  predicate OwnsAbove(s: State, t: Thread, m: nat) {
    exists k :: m < k < |s.owner| && Owns(s, t, k)
  }

  function AcquireStatus(s: State, t: Thread, m: nat): Status
    requires m < |s.owner|
  {
    if Owns(s, t, m) then AE_ALREADY_ACQUIRED
    else if OwnsAbove(s, t, m) then AE_ACQUIRE_DEADLOCK
    else AE_OK
  }

  function ReleaseStatus(s: State, t: Thread, m: nat): Status
    requires m < |s.owner|
  {
    if !Owns(s, t, m) then AE_NOT_ACQUIRED
    else if OwnsAbove(s, t, m) then AE_RELEASE_DEADLOCK
    else AE_OK
  }

  /** A thread asks for a mutex, is handed the free mutex it waits for, or gives one back. */
  datatype Action = Request(t: Thread, m: nat) | Grant(t: Thread) | Release(t: Thread, m: nat)

  /** A thread that waits does nothing else until it is served. */
  predicate Enabled(s: State, a: Action) {
    match a
    case Request(t, m) => m < |s.owner| && t !in s.waiting
    case Grant(t) => t in s.waiting && s.waiting[t] < |s.owner| && s.owner[s.waiting[t]] == None
    case Release(t, m) => m < |s.owner| && t !in s.waiting
  }

  function Step(s: State, a: Action): State
    requires Enabled(s, a)
  {
    match a
    case Request(t, m) =>
      if AcquireStatus(s, t, m) == AE_OK then s.(waiting := s.waiting[t := m]) else s
    case Grant(t) =>
      State(s.owner[s.waiting[t] := Some(t)], s.waiting - {t})
    case Release(t, m) =>
      if ReleaseStatus(s, t, m) == AE_OK then s.(owner := s.owner[m := None]) else s
  }

  predicate IsRun(s: State, run: seq<Action>)
    decreases |run|
  {
    run == [] || (Enabled(s, run[0]) && IsRun(Step(s, run[0]), run[1..]))
  }

  function Final(s: State, run: seq<Action>): State
    requires IsRun(s, run)
    decreases |run|
  {
    if run == [] then s else Final(Step(s, run[0]), run[1..])
  }

  // ---- Histories ----

  /** What a thread observes: the mutexes it took and gave back, in order. */
  datatype Event = Took(m: nat) | GaveBack(m: nat)

  /** The events of thread `t` that action `a` causes in state `s`. */
  function Observed(s: State, a: Action, t: Thread): seq<Event>
    requires Enabled(s, a)
  {
    match a
    case Grant(u) => if u == t then [Took(s.waiting[u])] else []
    case Release(u, m) => if u == t && ReleaseStatus(s, u, m) == AE_OK then [GaveBack(m)] else []
    case Request(_, _) => []
  }

  function History(s: State, run: seq<Action>, t: Thread): seq<Event>
    requires IsRun(s, run)
    decreases |run|
  {
    if run == [] then [] else Observed(s, run[0], t) + History(Step(s, run[0]), run[1..], t)
  }

  /** Replays a history on a stack, on its own terms: taking a mutex pushes it, and giving
      one back is only possible for the top of the stack. */
  function Replay(stack: seq<nat>, h: seq<Event>): (r: (bool, seq<nat>))
    decreases |h|
  {
    if h == [] then (true, stack)
    else match h[0]
      case Took(m) => Replay(stack + [m], h[1..])
      case GaveBack(m) =>
        if stack != [] && stack[|stack| - 1] == m then Replay(stack[..|stack| - 1], h[1..])
        else (false, stack)
  }

  predicate Increasing(stack: seq<nat>) {
    forall i, j :: 0 <= i < j < |stack| ==> stack[i] < stack[j]
  }

  /** `stack` lists exactly the mutexes that `t` owns, in increasing order. */
  ghost predicate Holds(s: State, t: Thread, stack: seq<nat>) {
    && Increasing(stack)
    && (forall m :: m in stack <==> Owns(s, t, m))
  }

  // ---- The invariant ----

  /** A thread waits only for a mutex above everything it owns. */
  ghost predicate Ordered(s: State) {
    && (forall t :: t in s.waiting ==> s.waiting[t] < |s.owner|)
    && (forall t, m :: t in s.waiting && Owns(s, t, m) ==> m < s.waiting[t])
  }

  lemma StepOrdered(s: State, a: Action)
    requires Ordered(s) && Enabled(s, a)
    ensures Ordered(Step(s, a)) && |Step(s, a).owner| == |s.owner|
  {
    var s' := Step(s, a);
    forall t, m | t in s'.waiting && Owns(s', t, m) ensures m < s'.waiting[t] {
      assert Owns(s, t, m);
      if a.Request? && t == a.t && AcquireStatus(s, t, a.m) == AE_OK {
        assert !OwnsAbove(s, t, a.m) && m != a.m;
      }
    }
  }

  lemma {:induction false} RunOrdered(s: State, run: seq<Action>)
    requires Ordered(s) && IsRun(s, run)
    ensures Ordered(Final(s, run)) && |Final(s, run).owner| == |s.owner|
    decreases |run|
  {
    if run != [] {
      StepOrdered(s, run[0]);
      RunOrdered(Step(s, run[0]), run[1..]);
    }
  }

  // ---- Lock discipline over whole runs ----

  lemma TopIsLargest(s: State, t: Thread, stack: seq<nat>, m: nat)
    requires Holds(s, t, stack) && Owns(s, t, m)
    ensures ReleaseStatus(s, t, m) == AE_OK <==> stack != [] && stack[|stack| - 1] == m
  {
    assert m in stack;
    var i :| 0 <= i < |stack| && stack[i] == m;
    var top := stack[|stack| - 1];
    assert top in stack && Owns(s, t, top);
    if i < |stack| - 1 {
      assert OwnsAbove(s, t, m);
    } else {
      forall k: nat | Owns(s, t, k) ensures k <= m {
        assert k in stack;
      }
    }
  }

  /** The answers to an acquire, told from the stack of what the thread holds: it is accepted
      iff the mutex lies above everything held. */
  lemma AcquireExact(s: State, t: Thread, stack: seq<nat>, m: nat)
    requires Holds(s, t, stack) && m < |s.owner|
    ensures AcquireStatus(s, t, m) == AE_OK <==> stack == [] || stack[|stack| - 1] < m
    ensures AcquireStatus(s, t, m) == AE_ALREADY_ACQUIRED <==> m in stack
    ensures AcquireStatus(s, t, m) == AE_ACQUIRE_DEADLOCK <==> m !in stack && stack != [] && m < stack[|stack| - 1]
  {
    AboveTop(s, t, stack, m);
  }

  lemma AboveTop(s: State, t: Thread, stack: seq<nat>, m: nat)
    requires Holds(s, t, stack) && m < |s.owner|
    ensures OwnsAbove(s, t, m) <==> stack != [] && m < stack[|stack| - 1]
  {
    if stack != [] {
      var top := stack[|stack| - 1];
      assert top in stack && Owns(s, t, top);
    }
    if k :| m < k < |s.owner| && Owns(s, t, k) {
      assert k in stack;
      var j :| 0 <= j < |stack| && stack[j] == k;
    }
  }

  /** The answers to a release: it is accepted iff the mutex is the last one taken. */
  lemma ReleaseExact(s: State, t: Thread, stack: seq<nat>, m: nat)
    requires Holds(s, t, stack) && m < |s.owner|
    ensures ReleaseStatus(s, t, m) == AE_OK <==> stack != [] && stack[|stack| - 1] == m
    ensures ReleaseStatus(s, t, m) == AE_NOT_ACQUIRED <==> m !in stack
    ensures ReleaseStatus(s, t, m) == AE_RELEASE_DEADLOCK <==> m in stack && stack[|stack| - 1] != m
  {
    AboveTop(s, t, stack, m);
    if m in stack {
      var j :| 0 <= j < |stack| && stack[j] == m;
    }
    if stack != [] {
      assert stack[|stack| - 1] in stack;
    }
  }

  lemma StepHolds(s: State, a: Action, t: Thread, stack: seq<nat>)
    requires Ordered(s) && Enabled(s, a) && Holds(s, t, stack)
    ensures Replay(stack, Observed(s, a, t)).0
    ensures Holds(Step(s, a), t, Replay(stack, Observed(s, a, t)).1)
  {
    var s' := Step(s, a);
    match a
    case Request(_, _) =>
      assert forall m :: Owns(s', t, m) <==> Owns(s, t, m);
    case Grant(u) =>
      var w := s.waiting[u];
      if u == t {
        assert Observed(s, a, t)[1..] == [];
        assert forall m :: m in stack ==> Owns(s, t, m);
        assert forall m :: Owns(s', t, m) <==> Owns(s, t, m) || m == w;
        var pushed := stack + [w];
        assert forall m :: m in pushed <==> m in stack || m == w;
        forall i, j | 0 <= i < j < |pushed| ensures pushed[i] < pushed[j] {
          if j == |stack| {
            assert stack[i] in stack;
          }
        }
      } else {
        assert forall m :: Owns(s', t, m) <==> Owns(s, t, m);
      }
    case Release(u, m) =>
      if u == t && s' != s {
        TopIsLargest(s, t, stack, m);
        PopHolds(s, t, stack);
        assert Observed(s, a, t)[1..] == [];
      } else {
        assert forall k :: Owns(s', t, k) <==> Owns(s, t, k);
        assert s' == s || u != t;
      }
  }

  lemma PopHolds(s: State, t: Thread, stack: seq<nat>)
    requires Holds(s, t, stack) && stack != []
    ensures stack[|stack| - 1] < |s.owner|
    ensures Holds(s.(owner := s.owner[stack[|stack| - 1] := None]), t, stack[..|stack| - 1])
  {
    var top := stack[|stack| - 1];
    assert top in stack && Owns(s, t, top);
    var s', rest := s.(owner := s.owner[top := None]), stack[..|stack| - 1];
    forall m ensures m in rest <==> Owns(s', t, m) {
      if m in rest {
        assert m in stack && m != top;
      }
      if Owns(s', t, m) {
        assert Owns(s, t, m) && m != top;
        assert m in stack;
      }
    }
  }

  lemma {:induction false} ReplayAppend(stack: seq<nat>, first: seq<Event>, second: seq<Event>)
    requires Replay(stack, first).0
    ensures Replay(stack, first + second) == Replay(Replay(stack, first).1, second)
    decreases |first|
  {
    if first == [] {
      assert first + second == second;
    } else {
      assert (first + second)[1..] == first[1..] + second;
      match first[0]
      case Took(m) => ReplayAppend(stack + [m], first[1..], second);
      case GaveBack(m) => ReplayAppend(stack[..|stack| - 1], first[1..], second);
    }
  }

  lemma {:induction false} RunDiscipline(s: State, run: seq<Action>, t: Thread, stack: seq<nat>)
    requires Ordered(s) && IsRun(s, run) && Holds(s, t, stack)
    ensures Replay(stack, History(s, run, t)).0
    ensures Holds(Final(s, run), t, Replay(stack, History(s, run, t)).1)
    decreases |run|
  {
    if run != [] {
      var s' := Step(s, run[0]);
      StepOrdered(s, run[0]);
      StepHolds(s, run[0], t, stack);
      var stack' := Replay(stack, Observed(s, run[0], t)).1;
      RunDiscipline(s', run[1..], t, stack');
      ReplayAppend(stack, Observed(s, run[0], t), History(s', run[1..], t));
    }
  }

  /** Over every run each thread gives its mutexes back in last-in, first-out order, and the
      mutexes it has not given back are, in the order in which it took them, strictly
      increasing and exactly those the mutex table records for it. */
  lemma LockDiscipline(n: nat, run: seq<Action>, t: Thread)
    requires IsRun(Init(n), run)
    ensures var (lifo, stack) := Replay([], History(Init(n), run, t));
            lifo && Holds(Final(Init(n), run), t, stack)
  {
    RunDiscipline(Init(n), run, t, []);
  }

  // ---- Deadlock freedom ----

  /** After any run, whatever the others do, a thread that is not waiting may ask for any mutex.
      It then waits for that mutex if it lies above all those the thread took and has not given
      back; otherwise nothing changes. */
  lemma RequestHonoured(n: nat, run: seq<Action>, t: Thread, m: nat)
    requires IsRun(Init(n), run) && t !in Final(Init(n), run).waiting && m < n
    ensures var s := Final(Init(n), run);
            var stack := Replay([], History(Init(n), run, t)).1;
            && Enabled(s, Request(t, m))
            && Step(s, Request(t, m)) == if stack == [] || stack[|stack| - 1] < m then s.(waiting := s.waiting[t := m]) else s
  {
    LockDiscipline(n, run, t);
    RunOrdered(Init(n), run);
    AcquireExact(Final(Init(n), run), t, Replay([], History(Init(n), run, t)).1, m);
  }

  /** Likewise it may release any mutex, which frees it if it is the last one taken and not
      given back, and otherwise changes nothing. */
  lemma ReleaseHonoured(n: nat, run: seq<Action>, t: Thread, m: nat)
    requires IsRun(Init(n), run) && t !in Final(Init(n), run).waiting && m < n
    ensures var s := Final(Init(n), run);
            var stack := Replay([], History(Init(n), run, t)).1;
            && Enabled(s, Release(t, m)) && m < |s.owner|
            && Step(s, Release(t, m)) == if stack != [] && stack[|stack| - 1] == m then s.(owner := s.owner[m := None]) else s
  {
    LockDiscipline(n, run, t);
    RunOrdered(Init(n), run);
    ReleaseExact(Final(Init(n), run), t, Replay([], History(Init(n), run, t)).1, m);
  }

  /** A thread that waits for a free mutex can be served, and then owns it. */
  lemma FreeMutexGranted(n: nat, run: seq<Action>, t: Thread)
    requires IsRun(Init(n), run) && t in Final(Init(n), run).waiting
    ensures var s := Final(Init(n), run);
            && s.waiting[t] < n && |s.owner| == n
            && (s.owner[s.waiting[t]] == None ==>
                  && Enabled(s, Grant(t)) && Owns(Step(s, Grant(t)), t, s.waiting[t])
                  && t !in Step(s, Grant(t)).waiting && Observed(s, Grant(t), t) == [Took(s.waiting[t])])
  {
    RunOrdered(Init(n), run);
  }

  /** `t` waits for a mutex that `u` owns. */
  predicate WaitsFor(s: State, t: Thread, u: Thread) {
    t in s.waiting && Owns(s, u, s.waiting[t])
  }

  predicate IsPath(s: State, path: seq<Thread>) {
    forall i :: 0 <= i < |path| - 1 ==> WaitsFor(s, path[i], path[i + 1])
  }

  lemma {:induction false} PathClimbs(s: State, path: seq<Thread>)
    requires Ordered(s) && IsPath(s, path) && |path| >= 2
    ensures path[0] in s.waiting
    ensures forall m :: Owns(s, path[0], m) ==> m < s.waiting[path[0]]
    ensures Owns(s, path[|path| - 1], s.waiting[path[|path| - 2]])
    ensures path[|path| - 2] in s.waiting && s.waiting[path[0]] <= s.waiting[path[|path| - 2]]
    decreases |path|
  {
    assert WaitsFor(s, path[0], path[1]);
    if |path| > 2 {
      var rest := path[1..];
      forall i | 0 <= i < |rest| - 1 ensures WaitsFor(s, rest[i], rest[i + 1]) {
        assert WaitsFor(s, path[i + 1], path[i + 2]);
      }
      PathClimbs(s, rest);
    }
  }

  /** In no reachable state does a chain of waiting threads close into a cycle. */
  lemma NoDeadlock(n: nat, run: seq<Action>, path: seq<Thread>)
    requires IsRun(Init(n), run) && |path| >= 2 && IsPath(Final(Init(n), run), path)
    ensures path[0] != path[|path| - 1]
  {
    RunOrdered(Init(n), run);
    PathClimbs(Final(Init(n), run), path);
  }

  /** Following the chain upwards from a blocked thread ends at an owner that is not blocked. */
  lemma ClimbToOwner(s: State, t: Thread) returns (u: Thread, m: nat)
    requires Ordered(s) && t in s.waiting && s.owner[s.waiting[t]] != None
    ensures Owns(s, u, m) && (u in s.waiting ==> Enabled(s, Grant(u)))
    decreases |s.owner| - s.waiting[t]
  {
    u, m := s.owner[s.waiting[t]].value, s.waiting[t];
    assert Owns(s, u, m);
    if u in s.waiting && s.owner[s.waiting[u]] != None {
      u, m := ClimbToOwner(s, u);
    }
  }

  /** If some thread is blocked in a reachable state, then some mutex has an owner that is
      not: it does not wait at all, or the mutex it waits for is free. */
  lemma SomeOwnerRuns(n: nat, run: seq<Action>, t: Thread) returns (u: Thread, m: nat)
    requires IsRun(Init(n), run) && t in Final(Init(n), run).waiting && !Enabled(Final(Init(n), run), Grant(t))
    ensures var s := Final(Init(n), run);
            Owns(s, u, m) && (u in s.waiting ==> Enabled(s, Grant(u)))
  {
    RunOrdered(Init(n), run);
    u, m := ClimbToOwner(Final(Init(n), run), t);
  }

  // ---- Every reachable state can be wound down ----

  function Owned(owner: seq<Owner>): nat {
    if owner == [] then 0 else (if owner[0] == None then 0 else 1) + Owned(owner[1..])
  }

  lemma {:induction false} OwnedUpdate(owner: seq<Owner>, m: nat, o: Owner)
    requires m < |owner|
    ensures Owned(owner[m := o]) + (if owner[m] == None then 0 else 1) == Owned(owner) + (if o == None then 0 else 1)
  {
    if m == 0 {
      assert owner[0 := o][1..] == owner[1..];
    } else {
      assert owner[m := o][1..] == owner[1..][m - 1 := o];
      OwnedUpdate(owner[1..], m - 1, o);
    }
  }

  lemma LargestOwned(s: State, u: Thread, m: nat) returns (top: nat)
    requires Owns(s, u, m)
    ensures Owns(s, u, top) && ReleaseStatus(s, u, top) == AE_OK
    decreases |s.owner| - m
  {
    if OwnsAbove(s, u, m) {
      var k :| m < k < |s.owner| && Owns(s, u, k);
      top := LargestOwned(s, u, k);
    } else {
      top := m;
    }
  }

  /** An action that makes progress: a waiting thread is served or a mutex is given back. */
  predicate Useful(s: State, a: Action) {
    Enabled(s, a) && (a.Grant? || (a.Release? && ReleaseStatus(s, a.t, a.m) == AE_OK))
  }

  lemma SomeUsefulAction(s: State) returns (a: Action)
    requires Ordered(s)
    requires s.waiting != map[] || exists m :: 0 <= m < |s.owner| && s.owner[m] != None
    ensures Useful(s, a)
  {
    if t :| t in s.waiting && Enabled(s, Grant(t)) {
      a := Grant(t);
    } else {
      var u: Thread, m: nat;
      if t :| t in s.waiting {
        u, m := ClimbToOwner(s, t);
      } else {
        assert s.waiting == map[];
        m :| 0 <= m < |s.owner| && s.owner[m] != None;
        u := s.owner[m].value;
      }
      m := LargestOwned(s, u, m);
      a := Release(u, m);
    }
  }

  predicate AllUseful(s: State, run: seq<Action>)
    decreases |run|
  {
    run == [] || (Useful(s, run[0]) && AllUseful(Step(s, run[0]), run[1..]))
  }

  /** The useful actions still to come: each waiting thread is to be served and then to give
      its mutex back, and each mutex that is owned is to be given back. */
  function Outstanding(s: State): nat { 2 * |s.waiting| + Owned(s.owner) }

  lemma UsefulStep(s: State, a: Action)
    requires Useful(s, a)
    ensures Outstanding(Step(s, a)) + 1 == Outstanding(s)
  {
    match a
    case Grant(t) =>
      OwnedUpdate(s.owner, s.waiting[t], Some(t));
      assert Step(s, a).waiting.Keys == s.waiting.Keys - {t};
      assert |Step(s, a).waiting.Keys| == |s.waiting.Keys| - 1;
    case Release(t, m) =>
      OwnedUpdate(s.owner, m, None);
  }

  lemma {:induction false} WindDownFrom(s: State) returns (run: seq<Action>)
    requires Ordered(s)
    ensures IsRun(s, run) && AllUseful(s, run) && Final(s, run) == Init(|s.owner|)
    decreases Outstanding(s)
  {
    run := [];
    if s != Init(|s.owner|) {
      assert s.owner == Init(|s.owner|).owner || exists m :: 0 <= m < |s.owner| && s.owner[m] != None;
      var a := SomeUsefulAction(s);
      StepOrdered(s, a);
      UsefulStep(s, a);
      var rest := WindDownFrom(Step(s, a));
      run := [a] + rest;
      assert run[1..] == rest;
    }
  }

  lemma {:induction false} RunAppend(s: State, first: seq<Action>, second: seq<Action>)
    requires IsRun(s, first) && IsRun(Final(s, first), second)
    ensures IsRun(s, first + second) && Final(s, first + second) == Final(Final(s, first), second)
    decreases |first|
  {
    if first == [] {
      assert first + second == second;
    } else {
      assert (first + second)[1..] == first[1..] + second;
      RunAppend(Step(s, first[0]), first[1..], second);
    }
  }

  /** Every run can be continued, only by serving waiting threads and giving mutexes back, to
      a state in which every thread that waited has been served and every mutex is free. */
  lemma EveryRunWindsDown(n: nat, run: seq<Action>) returns (more: seq<Action>)
    requires IsRun(Init(n), run)
    ensures AllUseful(Final(Init(n), run), more)
    ensures IsRun(Init(n), run + more) && Final(Init(n), run + more) == Init(n)
  {
    RunOrdered(Init(n), run);
    more := WindDownFrom(Final(Init(n), run));
    RunAppend(Init(n), run, more);
  }

  lemma {:induction false} UsefulRun(s: State, run: seq<Action>)
    requires Ordered(s) && IsRun(s, run) && AllUseful(s, run)
    ensures Ordered(Final(s, run)) && |run| + Outstanding(Final(s, run)) == Outstanding(s)
    decreases |run|
  {
    if run != [] {
      StepOrdered(s, run[0]);
      UsefulStep(s, run[0]);
      UsefulRun(Step(s, run[0]), run[1..]);
    }
  }

  /** However the waiting threads are served and the mutexes given back, that comes to an end:
      after any run, a continuation by such actions alone is no longer than what is outstanding,
      and if it cannot be extended by another one every thread has been served and every mutex
      is free. */
  lemma EveryContinuationWindsDown(n: nat, run: seq<Action>, more: seq<Action>)
    requires IsRun(Init(n), run) && IsRun(Final(Init(n), run), more) && AllUseful(Final(Init(n), run), more)
    ensures |more| <= Outstanding(Final(Init(n), run))
    ensures (forall a :: !Useful(Final(Final(Init(n), run), more), a)) <==> Final(Final(Init(n), run), more) == Init(n)
  {
    RunOrdered(Init(n), run);
    UsefulRun(Final(Init(n), run), more);
    RunOrdered(Final(Init(n), run), more);
    var s := Final(Final(Init(n), run), more);
    if s != Init(n) {
      assert s.owner == Init(n).owner || exists m :: 0 <= m < |s.owner| && s.owner[m] != None;
      var a := SomeUsefulAction(s);
    }
  }

  lemma {:induction false} WaitsUntilTaken(s: State, run: seq<Action>, t: Thread)
    requires IsRun(s, run) && t in s.waiting
    ensures (t in Final(s, run).waiting && Final(s, run).waiting[t] == s.waiting[t]) || Took(s.waiting[t]) in History(s, run, t)
    decreases |run|
  {
    if run != [] {
      var s' := Step(s, run[0]);
      if run[0] == Grant(t) {
        assert History(s, run, t)[0] == Took(s.waiting[t]);
      } else {
        assert t in s'.waiting && s'.waiting[t] == s.waiting[t];
        WaitsUntilTaken(s', run[1..], t);
      }
    }
  }

  lemma RunOne(s: State, a: Action)
    requires Enabled(s, a)
    ensures IsRun(s, [a]) && Final(s, [a]) == Step(s, a)
  {
    assert [a][1..] == [];
    assert Final(Step(s, a), []) == Step(s, a);
  }

  /** Every accepted request is served: after any run, a thread that asks for a mutex above all
      it has takes it in every continuation by grants and accepted releases that cannot be
      extended by another one. */
  lemma AcceptedIsServed(n: nat, run: seq<Action>, t: Thread, m: nat, more: seq<Action>)
    requires IsRun(Init(n), run) && t !in Final(Init(n), run).waiting && m < n
    requires var stack := Replay([], History(Init(n), run, t)).1; stack == [] || stack[|stack| - 1] < m
    requires Enabled(Final(Init(n), run), Request(t, m))
    requires var asked := Step(Final(Init(n), run), Request(t, m));
             IsRun(asked, more) && AllUseful(asked, more) && forall a :: !Useful(Final(asked, more), a)
    ensures Took(m) in History(Step(Final(Init(n), run), Request(t, m)), more, t)
  {
    var s := Final(Init(n), run);
    var asked := Step(s, Request(t, m));
    RequestHonoured(n, run, t, m);
    RunOne(s, Request(t, m));
    RunAppend(Init(n), run, [Request(t, m)]);
    EveryContinuationWindsDown(n, run + [Request(t, m)], more);
    WaitsUntilTaken(asked, more, t);
  }

  /** The refusal is needed: in a reachable state, accepting the request that
      AE_ACQUIRE_DEADLOCK refuses would make two threads wait for each other. */
  lemma RefusalIsNeeded() returns (run: seq<Action>)
    ensures IsRun(Init(ACPI_NUM_MUTEX), run)
    ensures var s := Final(Init(ACPI_NUM_MUTEX), run);
            && |s.owner| == ACPI_NUM_MUTEX && Enabled(s, Request(1, 0))
            && AcquireStatus(s, 1, 0) == AE_ACQUIRE_DEADLOCK
            && WaitsFor(s.(waiting := s.waiting[1 := 0]), 0, 1)
            && WaitsFor(s.(waiting := s.waiting[1 := 0]), 1, 0)
  {
    run := [Request(0, 0), Grant(0), Request(1, 1), Grant(1), Request(0, 1)];
    var s0 := Init(ACPI_NUM_MUTEX);
    var s1 := Step(s0, run[0]);
    var s2 := Step(s1, run[1]);
    var s3 := Step(s2, run[2]);
    var s4 := Step(s3, run[3]);
    var s5 := Step(s4, run[4]);
    var r1 := run[1..];
    var r2 := r1[1..];
    var r3 := r2[1..];
    var r4 := r3[1..];
    assert r4[1..] == [];
    assert IsRun(s4, r4) && Final(s4, r4) == s5;
    assert IsRun(s3, r3) && Final(s3, r3) == s5;
    assert IsRun(s2, r2) && Final(s2, r2) == s5;
    assert IsRun(s1, r1) && Final(s1, r1) == s5;
    assert Owns(s5, 1, 1);
  }
}
