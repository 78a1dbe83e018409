/** The reader/writer spinlock of CommonLib, at the granularity of its interlocked
    instructions, for any number of processors in any interleaving.

    The lock is three adjacent 16-bit words. A writer exchanges the double word formed by
    ActiveWriter and ActiveReaders; a reader exchanges the overlapping double word formed by
    WaitingWriters and ActiveWriter, and so briefly poses as a writer. All three counters
    wrap modulo 2^16, as the interlocked 16-bit instructions do. */
module RwSpinlock {

  const WORD_VALUES: nat := 0x1_0000

  type Word = x: int | 0 <= x < 0x1_0000

  function Increment16(x: Word): Word { (x + 1) % WORD_VALUES }

  function Decrement16(x: Word): Word { (x - 1) % WORD_VALUES }

  /** Where a processor is: outside, at one of the atomic instructions of
      RwSpinlockAcquire, or holding the lock. */
  datatype Pc =
    | Outside
    | SpinExclusive   // WaitingWriters incremented, at the exchange
    | WonExclusive    // exchange succeeded, WaitingWriters not yet decremented
    | Writing
    | SpinShared      // at the exchange
    | PosingAsWriter  // exchange succeeded, ActiveReaders not yet incremented
    | Confessing      // ActiveReaders incremented, ActiveWriter not yet decremented
    | Reading

  datatype State = State(waitingWriters: Word, activeWriter: Word, activeReaders: Word, cpus: seq<Pc>)

  /** RwSpinlockInit: all counters zero. */
  function Init(n: nat): State { State(0, 0, 0, seq(n, _ => Outside)) }

  /** What the processor executes next; at `Outside` the caller chooses. */
  datatype Action = AcquireExclusive | AcquireShared | Continue

  /** One atomic instruction of processor `c`. A failed exchange leaves the state as it is,
      and so does an action the processor is in no position to take. */
  function Step(s: State, c: nat, a: Action): State
    requires c < |s.cpus|
  {
    match s.cpus[c]
    case Outside =>
      if a == AcquireExclusive then
        s.(waitingWriters := Increment16(s.waitingWriters), cpus := s.cpus[c := SpinExclusive])
      else if a == AcquireShared then
        s.(cpus := s.cpus[c := SpinShared])
      else
        s
    case SpinExclusive =>
      if s.activeWriter == 0 && s.activeReaders == 0 then
        s.(activeWriter := 1, activeReaders := 0, cpus := s.cpus[c := WonExclusive])
      else
        s
    case WonExclusive =>
      s.(waitingWriters := Decrement16(s.waitingWriters), cpus := s.cpus[c := Writing])
    case Writing =>
      s.(activeWriter := Decrement16(s.activeWriter), cpus := s.cpus[c := Outside])
    case SpinShared =>
      if s.waitingWriters == 0 && s.activeWriter == 0 then
        s.(waitingWriters := 0, activeWriter := 1, cpus := s.cpus[c := PosingAsWriter])
      else
        s
    case PosingAsWriter =>
      s.(activeReaders := Increment16(s.activeReaders), cpus := s.cpus[c := Confessing])
    case Confessing =>
      s.(activeWriter := Decrement16(s.activeWriter), cpus := s.cpus[c := Reading])
    case Reading =>
      s.(activeReaders := Decrement16(s.activeReaders), cpus := s.cpus[c := Outside])
  }

  /** A schedule says which processor moves next, and how. */
  datatype Turn = Turn(cpu: nat, action: Action)

  predicate ValidSchedule(n: nat, turns: seq<Turn>) {
    forall k :: 0 <= k < |turns| ==> turns[k].cpu < n
  }

  function Run(s: State, turns: seq<Turn>): (r: State)
    requires ValidSchedule(|s.cpus|, turns)
    ensures |r.cpus| == |s.cpus|
    decreases |turns|
  {
    if turns == [] then s else Run(Step(s, turns[0].cpu, turns[0].action), turns[1..])
  }

  /** Mutual exclusion: a writer is inside alone. */
  predicate Exclusive(s: State) {
    forall i, j :: 0 <= i < |s.cpus| && 0 <= j < |s.cpus| && i != j && s.cpus[i] == Writing ==>
                     s.cpus[j] != Writing && s.cpus[j] != Reading
  }

  // ---- Counting processors ----

  function Sum(cpus: seq<Pc>, weight: Pc -> nat): nat {
    if cpus == [] then 0 else weight(cpus[0]) + Sum(cpus[1..], weight)
  }

  lemma {:induction false} SumUpdate(cpus: seq<Pc>, c: nat, p: Pc, weight: Pc -> nat)
    requires c < |cpus|
    ensures Sum(cpus[c := p], weight) + weight(cpus[c]) == Sum(cpus, weight) + weight(p)
  {
    if c == 0 {
      assert cpus[0 := p][1..] == cpus[1..];
    } else {
      assert cpus[c := p][1..] == cpus[1..][c - 1 := p];
      SumUpdate(cpus[1..], c - 1, p, weight);
    }
  }

  lemma {:induction false} SumMember(cpus: seq<Pc>, c: nat, weight: Pc -> nat)
    requires c < |cpus|
    ensures Sum(cpus, weight) >= weight(cpus[c])
  {
    if c > 0 {
      SumMember(cpus[1..], c - 1, weight);
    }
  }

  lemma {:induction false} SumPair(cpus: seq<Pc>, c: nat, d: nat, weight: Pc -> nat)
    requires c < d < |cpus|
    ensures Sum(cpus, weight) >= weight(cpus[c]) + weight(cpus[d])
  {
    if c > 0 {
      SumPair(cpus[1..], c - 1, d - 1, weight);
    } else {
      SumMember(cpus[1..], d - 1, weight);
    }
  }

  lemma {:induction false} SumBound(cpus: seq<Pc>, weight: Pc -> nat)
    requires forall p :: weight(p) <= 1
    ensures Sum(cpus, weight) <= |cpus|
  {
    if cpus != [] {
      SumBound(cpus[1..], weight);
    }
  }

  lemma {:induction false} SumZero(cpus: seq<Pc>, weight: Pc -> nat)
    requires forall c :: 0 <= c < |cpus| ==> weight(cpus[c]) == 0
    ensures Sum(cpus, weight) == 0
  {
    if cpus != [] {
      SumZero(cpus[1..], weight);
    }
  }

  lemma {:induction false} SumPositive(cpus: seq<Pc>, weight: Pc -> nat) returns (c: nat)
    requires Sum(cpus, weight) > 0
    ensures c < |cpus| && weight(cpus[c]) > 0
  {
    if weight(cpus[0]) > 0 {
      c := 0;
    } else {
      c := SumPositive(cpus[1..], weight);
      c := c + 1;
    }
  }

  /** Processors that hold ActiveWriter, as writers or posing as one. */
  function AtGate(p: Pc): nat {
    match p
    case WonExclusive => 1
    case Writing => 1
    case PosingAsWriter => 1
    case Confessing => 1
    case _ => 0
  }

  function IsWriter(p: Pc): nat { if p == WonExclusive || p == Writing then 1 else 0 }

  function CountsAsReader(p: Pc): nat { if p == Confessing || p == Reading then 1 else 0 }

  function CountsAsWaiter(p: Pc): nat { if p == SpinExclusive || p == WonExclusive then 1 else 0 }

  // ---- The invariant ----

  /** Each counter holds the number of processors it stands for, up to wrap-around, and at
      most one processor is at the gate. */
  predicate Counted(s: State) {
    && s.activeWriter == Sum(s.cpus, AtGate)
    && s.activeReaders == Sum(s.cpus, CountsAsReader) % WORD_VALUES
    && s.waitingWriters == Sum(s.cpus, CountsAsWaiter) % WORD_VALUES
    && Sum(s.cpus, AtGate) <= 1
  }

  /** And while the processor at the gate is a writer there are no readers. */
  predicate Invariant(s: State) {
    Counted(s) && (Sum(s.cpus, IsWriter) > 0 ==> Sum(s.cpus, CountsAsReader) == 0)
  }

  lemma InitInvariant(n: nat)
    ensures Invariant(Init(n))
  {
    SumZero(Init(n).cpus, AtGate);
    SumZero(Init(n).cpus, CountsAsReader);
    SumZero(Init(n).cpus, CountsAsWaiter);
    SumZero(Init(n).cpus, IsWriter);
  }

  lemma ModStep(x: nat)
    ensures Increment16(x % WORD_VALUES) == (x + 1) % WORD_VALUES
    ensures x > 0 ==> Decrement16(x % WORD_VALUES) == (x - 1) % WORD_VALUES
  {
  }

  /** A processor that poses as a writer is the only one at the gate, so no writer is in. */
  lemma PoserExcludesWriters(s: State, c: nat)
    requires Invariant(s) && c < |s.cpus| && s.cpus[c] == PosingAsWriter
    ensures Sum(s.cpus, IsWriter) == 0
  {
    if Sum(s.cpus, IsWriter) > 0 {
      var d := SumPositive(s.cpus, IsWriter);
      SumPair(s.cpus, if c < d then c else d, if c < d then d else c, AtGate);
    }
  }

  /** With at most 2^16 processors a zero counter seen by a spinning processor is a true zero. */
  lemma ZeroMeansNone(cpus: seq<Pc>, c: nat, p: Pc, weight: Pc -> nat)
    requires |cpus| <= WORD_VALUES && c < |cpus|
    requires weight(cpus[c]) == 0 && weight(p) == 1 && forall q :: weight(q) <= 1
    requires Sum(cpus, weight) % WORD_VALUES == 0
    ensures Sum(cpus, weight) == 0
  {
    SumUpdate(cpus, c, p, weight);
    SumBound(cpus[c := p], weight);
  }

  lemma StepReaders(s: State, c: nat, a: Action)
    requires c < |s.cpus| && Counted(s)
    ensures var t := Step(s, c, a); t.activeReaders == Sum(t.cpus, CountsAsReader) % WORD_VALUES
  {
    var t := Step(s, c, a);
    assert t.cpus == s.cpus[c := t.cpus[c]];
    SumUpdate(s.cpus, c, t.cpus[c], CountsAsReader);
    ModStep(Sum(s.cpus, CountsAsReader));
    SumMember(s.cpus, c, CountsAsReader);
  }

  lemma StepWaiters(s: State, c: nat, a: Action)
    requires c < |s.cpus| && Counted(s)
    ensures var t := Step(s, c, a); t.waitingWriters == Sum(t.cpus, CountsAsWaiter) % WORD_VALUES
  {
    var t := Step(s, c, a);
    assert t.cpus == s.cpus[c := t.cpus[c]];
    SumUpdate(s.cpus, c, t.cpus[c], CountsAsWaiter);
    ModStep(Sum(s.cpus, CountsAsWaiter));
    SumMember(s.cpus, c, CountsAsWaiter);
  }

  /** The counters keep step with the number of processors they stand for. */
  lemma StepCounters(s: State, c: nat, a: Action)
    requires c < |s.cpus| && Counted(s)
    ensures var t := Step(s, c, a);
            && t.activeReaders == Sum(t.cpus, CountsAsReader) % WORD_VALUES
            && t.waitingWriters == Sum(t.cpus, CountsAsWaiter) % WORD_VALUES
  {
    StepReaders(s, c, a);
    StepWaiters(s, c, a);
  }

  lemma StepGate(s: State, c: nat, a: Action)
    requires c < |s.cpus| && Counted(s)
    ensures var t := Step(s, c, a);
            t.activeWriter == Sum(t.cpus, AtGate) <= 1
  {
    var t := Step(s, c, a);
    assert t.cpus == s.cpus[c := t.cpus[c]];
    SumUpdate(s.cpus, c, t.cpus[c], AtGate);
    SumMember(s.cpus, c, AtGate);
  }

  lemma StepExclusion(s: State, c: nat, a: Action)
    requires |s.cpus| <= WORD_VALUES && c < |s.cpus| && Invariant(s)
    ensures var t := Step(s, c, a);
            Sum(t.cpus, IsWriter) > 0 ==> Sum(t.cpus, CountsAsReader) == 0
  {
    var t := Step(s, c, a);
    assert t.cpus == s.cpus[c := t.cpus[c]];
    SumUpdate(s.cpus, c, t.cpus[c], IsWriter);
    SumUpdate(s.cpus, c, t.cpus[c], CountsAsReader);
    if s.cpus[c] == SpinExclusive && t != s {
      ZeroMeansNone(s.cpus, c, Reading, CountsAsReader);
    } else if s.cpus[c] == PosingAsWriter {
      PoserExcludesWriters(s, c);
    }
  }

  lemma StepInvariant(s: State, c: nat, a: Action)
    requires |s.cpus| <= WORD_VALUES && c < |s.cpus| && Invariant(s)
    ensures Invariant(Step(s, c, a))
  {
    StepCounters(s, c, a);
    StepGate(s, c, a);
    StepExclusion(s, c, a);
  }

  lemma {:induction false} RunInvariant(s: State, turns: seq<Turn>)
    requires |s.cpus| <= WORD_VALUES && ValidSchedule(|s.cpus|, turns) && Invariant(s)
    ensures Invariant(Run(s, turns))
    decreases |turns|
  {
    if turns != [] {
      StepInvariant(s, turns[0].cpu, turns[0].action);
      RunInvariant(Step(s, turns[0].cpu, turns[0].action), turns[1..]);
    }
  }

  /** The counters are right, up to wrap-around, in every run of any number of processors. */
  lemma {:induction false} RunCounted(s: State, turns: seq<Turn>)
    requires ValidSchedule(|s.cpus|, turns) && Counted(s)
    ensures Counted(Run(s, turns))
    decreases |turns|
  {
    if turns != [] {
      StepCounters(s, turns[0].cpu, turns[0].action);
      StepGate(s, turns[0].cpu, turns[0].action);
      RunCounted(Step(s, turns[0].cpu, turns[0].action), turns[1..]);
    }
  }

  lemma InvariantExclusive(s: State)
    requires Invariant(s)
    ensures Exclusive(s)
  {
    forall i, j | 0 <= i < |s.cpus| && 0 <= j < |s.cpus| && i != j && s.cpus[i] == Writing
      ensures s.cpus[j] != Writing && s.cpus[j] != Reading
    {
      SumMember(s.cpus, i, IsWriter);
      SumMember(s.cpus, j, CountsAsReader);
      SumPair(s.cpus, if i < j then i else j, if i < j then j else i, AtGate);
    }
  }

  // ---- Too many processors ----

  lemma {:induction false} RunAppend(s: State, first: seq<Turn>, second: seq<Turn>)
    requires ValidSchedule(|s.cpus|, first) && ValidSchedule(|s.cpus|, second)
    ensures ValidSchedule(|s.cpus|, first + second)
    ensures Run(s, first + second) == Run(Run(s, first), second)
    decreases |first|
  {
    if first == [] {
      assert first + second == second;
    } else {
      assert (first + second)[1..] == first[1..] + second;
      RunAppend(Step(s, first[0].cpu, first[0].action), first[1..], second);
    }
  }

  /** Processors 0 to k-1 are reading, the others are outside. */
  function ReadersInside(n: nat, k: nat): State {
    State(0, 0, k % WORD_VALUES, seq(n, i => if i < k then Reading else Outside))
  }

  lemma OneMoreReader(n: nat, k: nat)
    requires k < n
    ensures var turns := [Turn(k, AcquireShared), Turn(k, Continue), Turn(k, Continue), Turn(k, Continue)];
            ValidSchedule(n, turns) && Run(ReadersInside(n, k), turns) == ReadersInside(n, k + 1)
  {
    var turns := [Turn(k, AcquireShared), Turn(k, Continue), Turn(k, Continue), Turn(k, Continue)];
    var s0 := ReadersInside(n, k);
    var s1 := Step(s0, k, AcquireShared);
    var s2 := Step(s1, k, Continue);
    var s3 := Step(s2, k, Continue);
    var s4 := Step(s3, k, Continue);
    assert turns[1..] == [Turn(k, Continue), Turn(k, Continue), Turn(k, Continue)];
    assert turns[1..][1..] == [Turn(k, Continue), Turn(k, Continue)];
    assert turns[1..][1..][1..] == [Turn(k, Continue)];
    assert turns[1..][1..][1..][1..] == [];
    assert Run(s0, turns) == Run(s1, turns[1..]) == Run(s2, turns[1..][1..])
        == Run(s3, turns[1..][1..][1..]) == Run(s4, []);
    assert s4.cpus == ReadersInside(n, k + 1).cpus;
  }

  /** Any number of processors can read together. */
  lemma {:induction false} ReadersShare(n: nat, k: nat) returns (turns: seq<Turn>)
    requires k <= n
    ensures ValidSchedule(n, turns) && Run(Init(n), turns) == ReadersInside(n, k)
  {
    if k == 0 {
      turns := [];
      assert Init(n).cpus == ReadersInside(n, 0).cpus;
    } else {
      var before := ReadersShare(n, k - 1);
      OneMoreReader(n, k - 1);
      var more := [Turn(k - 1, AcquireShared), Turn(k - 1, Continue), Turn(k - 1, Continue), Turn(k - 1, Continue)];
      RunAppend(Init(n), before, more);
      turns := before + more;
    }
  }

  /** With 2^16 readers inside, ActiveReaders has wrapped to zero and a writer gets in too. */
  lemma WriterJoinsReaders(n: nat) returns (turns: seq<Turn>)
    requires n > WORD_VALUES
    ensures ValidSchedule(n, turns) && !Exclusive(Run(Init(n), turns))
  {
    var before := ReadersShare(n, WORD_VALUES);
    var w := WORD_VALUES;
    var more := [Turn(w, AcquireExclusive), Turn(w, Continue), Turn(w, Continue)];
    RunAppend(Init(n), before, more);
    turns := before + more;
    var s0 := ReadersInside(n, WORD_VALUES);
    var s1 := Step(s0, w, AcquireExclusive);
    var s2 := Step(s1, w, Continue);
    var s3 := Step(s2, w, Continue);
    assert more[1..] == [Turn(w, Continue), Turn(w, Continue)];
    assert more[1..][1..] == [Turn(w, Continue)];
    assert more[1..][1..][1..] == [];
    assert Run(s0, more) == Run(s1, more[1..]) == Run(s2, more[1..][1..]) == Run(s3, []);
    assert s3.cpus[w] == Writing && s3.cpus[0] == Reading;
  }

  // ---- Main results ----

  /** No schedule ever puts a writer inside together with anyone else, exactly when the
      machine has at most 2^16 processors. */
  lemma MutualExclusion(n: nat)
    ensures (forall turns :: ValidSchedule(n, turns) ==> Exclusive(Run(Init(n), turns))) <==> n <= WORD_VALUES
  {
    if n <= WORD_VALUES {
      InitInvariant(n);
      forall turns | ValidSchedule(n, turns) ensures Exclusive(Run(Init(n), turns)) {
        RunInvariant(Init(n), turns);
        InvariantExclusive(Run(Init(n), turns));
      }
    } else {
      var turns := WriterJoinsReaders(n);
    }
  }

  /** The assertions of the code never fail: a processor that is about to give up
      ActiveWriter finds it equal to one. */
  lemma AssertionsHold(n: nat, turns: seq<Turn>, c: nat)
    requires ValidSchedule(n, turns) && c < n
    ensures var s := Run(Init(n), turns);
            s.cpus[c] == Writing || s.cpus[c] == Confessing ==> s.activeWriter == 1
  {
    InitInvariant(n);
    RunCounted(Init(n), turns);
    SumMember(Run(Init(n), turns).cpus, c, AtGate);
  }

  /** While a writer spins, the exchange of every spinning reader fails. */
  predicate WritersFirst(s: State) {
    forall reader, writer ::
      0 <= reader < |s.cpus| && 0 <= writer < |s.cpus| && s.cpus[reader] == SpinShared && s.cpus[writer] == SpinExclusive ==>
        Step(s, reader, Continue) == s
  }

  lemma WaitingWriterStops(s: State, reader: nat, writer: nat)
    requires Counted(s) && |s.cpus| <= WORD_VALUES && reader < |s.cpus| && writer < |s.cpus|
    requires s.cpus[reader] == SpinShared && s.cpus[writer] == SpinExclusive
    ensures Step(s, reader, Continue) == s
  {
    SumMember(s.cpus, writer, CountsAsWaiter);
    if s.waitingWriters == 0 {
      ZeroMeansNone(s.cpus, reader, SpinExclusive, CountsAsWaiter);
    }
  }

  /** The first `k` processors spin as writers. */
  function WritersSpinning(n: nat, k: nat): State {
    State(k % WORD_VALUES, 0, 0, seq(n, i => if i < k then SpinExclusive else Outside))
  }

  lemma {:induction false} WritersQueueUp(n: nat, k: nat) returns (turns: seq<Turn>)
    requires k <= n
    ensures ValidSchedule(n, turns) && Run(Init(n), turns) == WritersSpinning(n, k)
  {
    turns := [];
    if k == 0 {
      assert Init(n).cpus == WritersSpinning(n, 0).cpus;
    } else {
      var before := WritersQueueUp(n, k - 1);
      var more := [Turn(k - 1, AcquireExclusive)];
      RunAppend(Init(n), before, more);
      turns := before + more;
      assert more[1..] == [];
      ModStep(k - 1);
      assert Step(WritersSpinning(n, k - 1), k - 1, AcquireExclusive).cpus == WritersSpinning(n, k).cpus;
    }
  }

  /** With 2^16 writers spinning, WaitingWriters has wrapped to zero and a reader overtakes
      them all. */
  lemma ReaderOvertakes(n: nat) returns (turns: seq<Turn>)
    requires n > WORD_VALUES
    ensures ValidSchedule(n, turns) && !WritersFirst(Run(Init(n), turns))
  {
    var before := WritersQueueUp(n, WORD_VALUES);
    var more := [Turn(WORD_VALUES, AcquireShared)];
    RunAppend(Init(n), before, more);
    turns := before + more;
    assert more[1..] == [];
    var s := Step(WritersSpinning(n, WORD_VALUES), WORD_VALUES, AcquireShared);
    assert s.cpus[WORD_VALUES] == SpinShared && s.cpus[0] == SpinExclusive;
    assert Step(s, WORD_VALUES, Continue).cpus[WORD_VALUES] == PosingAsWriter;
  }

  /** Writers have priority over readers in every run, exactly when the machine has at most
      2^16 processors. */
  lemma WriterPriority(n: nat)
    ensures (forall turns :: ValidSchedule(n, turns) ==> WritersFirst(Run(Init(n), turns))) <==> n <= WORD_VALUES
  {
    if n <= WORD_VALUES {
      InitInvariant(n);
      forall turns | ValidSchedule(n, turns) ensures WritersFirst(Run(Init(n), turns)) {
        RunCounted(Init(n), turns);
        var s := Run(Init(n), turns);
        forall reader, writer | 0 <= reader < n && 0 <= writer < n && s.cpus[reader] == SpinShared && s.cpus[writer] == SpinExclusive
          ensures Step(s, reader, Continue) == s
        {
          WaitingWriterStops(s, reader, writer);
        }
      }
    } else {
      var turns := ReaderOvertakes(n);
    }
  }

  /** How many instructions a processor still has to execute before it is outside again. */
  function Remaining(p: Pc): nat {
    match p
    case Outside => 0
    case SpinExclusive => 3
    case WonExclusive => 2
    case Writing => 1
    case SpinShared => 4
    case PosingAsWriter => 3
    case Confessing => 2
    case Reading => 1
  }

  predicate Spinning(p: Pc) { p == SpinExclusive || p == SpinShared }

  /** Some processor can always move on: either one that is not spinning, or one whose
      exchange succeeds now. */
  lemma SomeoneMoves(s: State) returns (c: nat)
    requires Counted(s) && exists k :: 0 <= k < |s.cpus| && s.cpus[k] != Outside
    ensures c < |s.cpus| && Remaining(Step(s, c, Continue).cpus[c]) + 1 == Remaining(s.cpus[c])
  {
    if k :| 0 <= k < |s.cpus| && s.cpus[k] != Outside && !Spinning(s.cpus[k]) {
      c := k;
    } else {
      SumZero(s.cpus, AtGate);
      SumZero(s.cpus, CountsAsReader);
      if k :| 0 <= k < |s.cpus| && s.cpus[k] == SpinExclusive {
        c := k;
      } else {
        SumZero(s.cpus, CountsAsWaiter);
        c :| 0 <= c < |s.cpus| && s.cpus[c] != Outside;
      }
    }
  }

  /** A processor that does not acquire anew either changes nothing or has one instruction
      fewer to go. */
  lemma ContinueDescends(s: State, c: nat)
    requires Counted(s) && c < |s.cpus|
    ensures var t := Step(s, c, Continue);
            && Counted(t) && |t.cpus| == |s.cpus|
            && (t == s || Sum(t.cpus, Remaining) + 1 == Sum(s.cpus, Remaining))
            && (Remaining(t.cpus[c]) != Remaining(s.cpus[c]) ==> t != s)
  {
    StepCounters(s, c, Continue);
    StepGate(s, c, Continue);
    ContinueOne(s, c);
    SumUpdate(s.cpus, c, Step(s, c, Continue).cpus[c], Remaining);
  }

  lemma ContinueOne(s: State, c: nat)
    requires c < |s.cpus|
    ensures var t := Step(s, c, Continue);
            t == s || (t.cpus == s.cpus[c := t.cpus[c]] && Remaining(t.cpus[c]) + 1 == Remaining(s.cpus[c]))
  {
  }

  lemma {:induction false} DrainFrom(s: State) returns (turns: seq<Turn>)
    requires Counted(s)
    ensures ValidSchedule(|s.cpus|, turns)
    ensures forall k :: 0 <= k < |turns| ==> turns[k].action == Continue
    ensures |turns| == Sum(s.cpus, Remaining)
    ensures Run(s, turns) == Init(|s.cpus|)
    decreases Sum(s.cpus, Remaining)
  {
    if k :| 0 <= k < |s.cpus| && s.cpus[k] != Outside {
      var c := SomeoneMoves(s);
      var t := Step(s, c, Continue);
      ContinueDescends(s, c);
      var rest := DrainFrom(t);
      turns := [Turn(c, Continue)] + rest;
      assert turns[1..] == rest;
    } else {
      turns := [];
      AllOutside(s);
    }
  }

  lemma AllOutside(s: State)
    requires Counted(s) && forall k :: 0 <= k < |s.cpus| ==> s.cpus[k] == Outside
    ensures s == Init(|s.cpus|) && Sum(s.cpus, Remaining) == 0
  {
    SumZero(s.cpus, Remaining);
    SumZero(s.cpus, AtGate);
    SumZero(s.cpus, CountsAsReader);
    SumZero(s.cpus, CountsAsWaiter);
    assert s.cpus == Init(|s.cpus|).cpus;
  }

  /** No reachable state is stuck: from each one, letting the processors that are inside or
      waiting run on brings the lock back to its initial state, and no instruction of that
      schedule is wasted on a failed exchange. */
  lemma AlwaysReleasable(n: nat, turns: seq<Turn>) returns (more: seq<Turn>)
    requires ValidSchedule(n, turns)
    ensures ValidSchedule(n, turns + more)
    ensures Run(Init(n), turns + more) == Init(n)
    ensures forall k :: 0 <= k < |more| ==> more[k].action == Continue
    ensures |more| == Sum(Run(Init(n), turns).cpus, Remaining)
  {
    InitInvariant(n);
    RunCounted(Init(n), turns);
    more := DrainFrom(Run(Init(n), turns));
    RunAppend(Init(n), turns, more);
  }

  // ---- Every fair run drains ----

  /** The run contains no new acquire. */
  predicate OnlyContinues(turns: seq<Turn>) {
    forall k :: 0 <= k < |turns| ==> turns[k].action == Continue
  }

  /** How many turns of a run change the state. */
  function Changes(s: State, turns: seq<Turn>): nat
    requires ValidSchedule(|s.cpus|, turns)
    decreases |turns|
  {
    if turns == [] then 0
    else
      var t := Step(s, turns[0].cpu, turns[0].action);
      (if t == s then 0 else 1) + Changes(t, turns[1..])
  }

  /** In every run without new acquires each change brings the lock one instruction nearer to
      its initial state; a run without a change has tried every turn in vain. */
  lemma {:induction false} ChangesCounted(s: State, turns: seq<Turn>)
    requires Counted(s) && ValidSchedule(|s.cpus|, turns) && OnlyContinues(turns)
    ensures Counted(Run(s, turns))
    ensures Changes(s, turns) + Sum(Run(s, turns).cpus, Remaining) == Sum(s.cpus, Remaining)
    ensures Changes(s, turns) == 0 ==> Run(s, turns) == s && forall k :: 0 <= k < |turns| ==> Step(s, turns[k].cpu, Continue) == s
    decreases |turns|
  {
    if turns != [] {
      var t := Step(s, turns[0].cpu, Continue);
      ContinueDescends(s, turns[0].cpu);
      ChangesCounted(t, turns[1..]);
      forall k | Changes(s, turns) == 0 && 0 <= k < |turns| ensures Step(s, turns[k].cpu, Continue) == s {
        if k > 0 {
          assert turns[k] == turns[1..][k - 1];
        }
      }
    }
  }

  /** A state that no processor can change without a new acquire is the initial one. */
  lemma NoChangeMeansIdle(s: State)
    requires Counted(s)
    ensures (forall c :: 0 <= c < |s.cpus| ==> Step(s, c, Continue) == s) <==> s == Init(|s.cpus|)
  {
    if k :| 0 <= k < |s.cpus| && s.cpus[k] != Outside {
      var c := SomeoneMoves(s);
      ContinueDescends(s, c);
    } else {
      AllOutside(s);
    }
  }

  /** Every processor gets a turn. */
  predicate IsRound(n: nat, turns: seq<Turn>) {
    && ValidSchedule(n, turns) && OnlyContinues(turns)
    && forall c: nat :: c < n ==> GetsTurn(turns, c)
  }

  predicate GetsTurn(turns: seq<Turn>, c: nat) { exists k :: 0 <= k < |turns| && turns[k].cpu == c }

  lemma RoundDescends(s: State, turns: seq<Turn>)
    requires Counted(s) && IsRound(|s.cpus|, turns)
    ensures Counted(Run(s, turns))
    ensures s == Init(|s.cpus|) ==> Run(s, turns) == s
    ensures s != Init(|s.cpus|) ==> Sum(Run(s, turns).cpus, Remaining) < Sum(s.cpus, Remaining)
  {
    ChangesCounted(s, turns);
    NoChangeMeansIdle(s);
    if s == Init(|s.cpus|) {
      AllOutside(s);
    } else if Changes(s, turns) == 0 {
      forall c | 0 <= c < |s.cpus| ensures Step(s, c, Continue) == s {
        assert GetsTurn(turns, c);
      }
    }
  }

  function RunRounds(s: State, rounds: seq<seq<Turn>>): State
    requires forall k :: 0 <= k < |rounds| ==> IsRound(|s.cpus|, rounds[k])
    decreases |rounds|
  {
    if rounds == [] then s
    else
      assert IsRound(|s.cpus|, rounds[0]);
      RunRounds(Run(s, rounds[0]), rounds[1..])
  }

  lemma {:induction false} RoundsDrain(s: State, rounds: seq<seq<Turn>>)
    requires Counted(s) && forall k :: 0 <= k < |rounds| ==> IsRound(|s.cpus|, rounds[k])
    requires |rounds| >= Sum(s.cpus, Remaining)
    ensures RunRounds(s, rounds) == Init(|s.cpus|)
    decreases |rounds|
  {
    NoChangeMeansIdle(s);
    if rounds == [] {
      forall c | 0 <= c < |s.cpus| ensures s.cpus[c] == Outside {
        SumMember(s.cpus, c, Remaining);
      }
      AllOutside(s);
    } else {
      RoundDescends(s, rounds[0]);
      if s == Init(|s.cpus|) {
        AllOutside(s);
      }
      RoundsDrain(Run(s, rounds[0]), rounds[1..]);
    }
  }

  /** Liveness under every fair scheduler: after any run, once no processor acquires anew, the
      lock is back in its initial state as soon as everyone has had a turn as often as there
      are instructions left to execute, whatever the order of the turns. */
  lemma EveryFairRunDrains(n: nat, before: seq<Turn>, rounds: seq<seq<Turn>>)
    requires ValidSchedule(n, before) && forall k :: 0 <= k < |rounds| ==> IsRound(n, rounds[k])
    requires |rounds| >= Sum(Run(Init(n), before).cpus, Remaining)
    ensures RunRounds(Run(Init(n), before), rounds) == Init(n)
  {
    InitInvariant(n);
    RunCounted(Init(n), before);
    RoundsDrain(Run(Init(n), before), rounds);
  }

  // ---- Every acquire gets through ----

  /** Whatever the counters hold, an acquire puts a processor that is outside in line: a writer
      as one more counted waiter, a reader spinning; nothing else changes. */
  lemma AcquireLinesUp(n: nat, turns: seq<Turn>, c: nat)
    requires ValidSchedule(n, turns) && c < n && Run(Init(n), turns).cpus[c] == Outside
    ensures var s := Run(Init(n), turns);
            var x, r := Step(s, c, AcquireExclusive), Step(s, c, AcquireShared);
            && x.cpus == s.cpus[c := SpinExclusive] && r.cpus == s.cpus[c := SpinShared]
            && Sum(x.cpus, CountsAsWaiter) == Sum(s.cpus, CountsAsWaiter) + 1
            && x.waitingWriters == Sum(x.cpus, CountsAsWaiter) % WORD_VALUES
            && x.activeWriter == s.activeWriter && x.activeReaders == s.activeReaders
            && r == s.(cpus := r.cpus)
  {
    InitInvariant(n);
    RunCounted(Init(n), turns);
    var s := Run(Init(n), turns);
    StepCounters(s, c, AcquireExclusive);
    SumUpdate(s.cpus, c, SpinExclusive, CountsAsWaiter);
  }

  /** No processor counts. */
  predicate NoneCounts(cpus: seq<Pc>, weight: Pc -> nat) {
    forall k :: 0 <= k < |cpus| ==> weight(cpus[k]) == 0
  }

  lemma ZeroExactly(cpus: seq<Pc>, weight: Pc -> nat)
    ensures Sum(cpus, weight) == 0 <==> NoneCounts(cpus, weight)
  {
    if Sum(cpus, weight) == 0 {
      forall k | 0 <= k < |cpus| ensures weight(cpus[k]) == 0 {
        SumMember(cpus, k, weight);
      }
    } else {
      var k := SumPositive(cpus, weight);
    }
  }

  /** On a machine of at most 2^16 processors a spinning writer gets in exactly when nobody is
      inside or on the way in past the exchange. */
  lemma WriterEntersExactly(n: nat, turns: seq<Turn>, c: nat)
    requires n <= WORD_VALUES && ValidSchedule(n, turns) && c < n && Run(Init(n), turns).cpus[c] == SpinExclusive
    ensures var s := Run(Init(n), turns);
            && (Step(s, c, Continue) == s || Step(s, c, Continue).cpus == s.cpus[c := WonExclusive])
            && (Step(s, c, Continue) != s <==> forall k :: 0 <= k < n ==> s.cpus[k] in {Outside, SpinExclusive, SpinShared})
  {
    InitInvariant(n);
    RunCounted(Init(n), turns);
    var s := Run(Init(n), turns);
    ZeroExactly(s.cpus, AtGate);
    ZeroExactly(s.cpus, CountsAsReader);
    if s.activeReaders == 0 {
      ZeroMeansNone(s.cpus, c, Reading, CountsAsReader);
    }
    assert s.activeWriter == 0 && s.activeReaders == 0 <==> NoneCounts(s.cpus, AtGate) && NoneCounts(s.cpus, CountsAsReader);
    forall k | 0 <= k < n
      ensures AtGate(s.cpus[k]) == 0 && CountsAsReader(s.cpus[k]) == 0 <==> s.cpus[k] in {Outside, SpinExclusive, SpinShared} {}
    assert Step(s, c, Continue) != s ==> Step(s, c, Continue).cpus[c] == WonExclusive;
    assert s.activeWriter == 0 && s.activeReaders == 0 ==> Step(s, c, Continue).cpus[c] == WonExclusive;
  }

  /** And a spinning reader exactly when no writer waits or is in and no other reader is just
      getting in. */
  lemma ReaderEntersExactly(n: nat, turns: seq<Turn>, c: nat)
    requires n <= WORD_VALUES && ValidSchedule(n, turns) && c < n && Run(Init(n), turns).cpus[c] == SpinShared
    ensures var s := Run(Init(n), turns);
            && (Step(s, c, Continue) == s || Step(s, c, Continue).cpus == s.cpus[c := PosingAsWriter])
            && (Step(s, c, Continue) != s <==> forall k :: 0 <= k < n ==> s.cpus[k] in {Outside, SpinShared, Reading})
  {
    InitInvariant(n);
    RunCounted(Init(n), turns);
    var s := Run(Init(n), turns);
    ZeroExactly(s.cpus, AtGate);
    ZeroExactly(s.cpus, CountsAsWaiter);
    if s.waitingWriters == 0 {
      ZeroMeansNone(s.cpus, c, SpinExclusive, CountsAsWaiter);
    }
    assert s.activeWriter == 0 && s.waitingWriters == 0 <==> NoneCounts(s.cpus, AtGate) && NoneCounts(s.cpus, CountsAsWaiter);
    forall k | 0 <= k < n
      ensures AtGate(s.cpus[k]) == 0 && CountsAsWaiter(s.cpus[k]) == 0 <==> s.cpus[k] in {Outside, SpinShared, Reading} {}
    assert Step(s, c, Continue) != s ==> Step(s, c, Continue).cpus[c] == PosingAsWriter;
    assert s.activeWriter == 0 && s.waitingWriters == 0 ==> Step(s, c, Continue).cpus[c] == PosingAsWriter;
  }

  /** At some point of the run processor `c` is at `p`. */
  predicate Passes(s: State, turns: seq<Turn>, c: nat, p: Pc)
    requires ValidSchedule(|s.cpus|, turns) && c < |s.cpus|
    decreases |turns|
  {
    s.cpus[c] == p || (turns != [] && Passes(Step(s, turns[0].cpu, turns[0].action), turns[1..], c, p))
  }

  predicate EnteringAsWriter(p: Pc) { p in {SpinExclusive, WonExclusive} }

  predicate EnteringAsReader(p: Pc) { p in {SpinShared, PosingAsWriter, Confessing} }

  /** In every run a processor that acquires comes out of RwSpinlockAcquire in one way only:
      with the lock, as a writer or as a reader, whichever it asked for. */
  lemma {:induction false} ComesOutWithLock(s: State, turns: seq<Turn>, c: nat)
    requires ValidSchedule(|s.cpus|, turns) && c < |s.cpus|
    ensures EnteringAsWriter(s.cpus[c]) ==> Passes(s, turns, c, Writing) || EnteringAsWriter(Run(s, turns).cpus[c])
    ensures EnteringAsReader(s.cpus[c]) ==> Passes(s, turns, c, Reading) || EnteringAsReader(Run(s, turns).cpus[c])
    decreases |turns|
  {
    if turns != [] {
      ComesOutWithLock(Step(s, turns[0].cpu, turns[0].action), turns[1..], c);
    }
  }

  function Flat(rounds: seq<seq<Turn>>): seq<Turn> {
    if rounds == [] then [] else rounds[0] + Flat(rounds[1..])
  }

  lemma {:induction false} RoundsFlat(s: State, rounds: seq<seq<Turn>>)
    requires forall k :: 0 <= k < |rounds| ==> IsRound(|s.cpus|, rounds[k])
    ensures ValidSchedule(|s.cpus|, Flat(rounds)) && Run(s, Flat(rounds)) == RunRounds(s, rounds)
    decreases |rounds|
  {
    if rounds != [] {
      assert IsRound(|s.cpus|, rounds[0]);
      RoundsFlat(Run(s, rounds[0]), rounds[1..]);
      RunAppend(s, rounds[0], Flat(rounds[1..]));
    }
  }

  /** Every acquire gets through: after any run, a processor that acquires the lock has it, in
      the mode it asked for, at some point of every fair continuation without further
      acquires. */
  lemma EveryAcquireGetsThrough(n: nat, before: seq<Turn>, c: nat, exclusive: bool, rounds: seq<seq<Turn>>)
    requires ValidSchedule(n, before) && c < n && Run(Init(n), before).cpus[c] == Outside
    requires forall k :: 0 <= k < |rounds| ==> IsRound(n, rounds[k])
    requires var a := if exclusive then AcquireExclusive else AcquireShared;
             |rounds| >= Sum(Step(Run(Init(n), before), c, a).cpus, Remaining)
    ensures var a := if exclusive then AcquireExclusive else AcquireShared;
            var s := Step(Run(Init(n), before), c, a);
            ValidSchedule(n, Flat(rounds)) && Passes(s, Flat(rounds), c, if exclusive then Writing else Reading)
  {
    var a := if exclusive then AcquireExclusive else AcquireShared;
    var now := Run(Init(n), before);
    var s := Step(now, c, a);
    AcquireLinesUp(n, before, c);
    InitInvariant(n);
    RunCounted(Init(n), before);
    StepCounters(now, c, a);
    StepGate(now, c, a);
    RoundsDrain(s, rounds);
    RoundsFlat(s, rounds);
    ComesOutWithLock(s, Flat(rounds), c);
  }

  /** Past the exchange nothing holds a processor up. */
  lemma MovesUnlessSpinning(s: State, c: nat)
    requires c < |s.cpus| && s.cpus[c] != Outside && !Spinning(s.cpus[c])
    ensures Remaining(Step(s, c, Continue).cpus[c]) + 1 == Remaining(s.cpus[c])
  {
  }
}
