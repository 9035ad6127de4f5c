/** The reader/writer spinlock: three adjacent 16-bit words, changed by 16-bit increments and
    decrements and by 32-bit compare-exchanges that each cover two of them. Every CPU runs
    the acquire and release code, one atomic instruction (or one ASSERT read) per step, in any
    interleaving.
 */
module RwSpinlock {
  import opened Counting

  const WORD_RANGE := 0x1_0000
  const MAX_CPUS := 0x1_0000

  type Word = x: int | 0 <= x < WORD_RANGE

  /** What a CPU will execute next. */
  datatype Pc =
    | Outside         // may call RwSpinlockAcquire
    | WriterSpin      // compare-exchange on ActiveWriter and ActiveReaders
    | WriterUnwait    // decrement WaitingWriters
    | WriterInside    // holds the lock; may call RwSpinlockRelease
    | WriterCheck     // ASSERT(1 == ActiveWriter)
    | WriterLeave     // decrement ActiveWriter
    | ReaderSpin      // compare-exchange on WaitingWriters and ActiveWriter
    | ReaderCount     // increment ActiveReaders
    | ReaderCheck     // ASSERT(1 == ActiveWriter)
    | ReaderConfess   // decrement ActiveWriter
    | ReaderInside    // holds the lock; may call RwSpinlockRelease

  datatype Lock = Lock(waitingWriters: Word, activeWriter: Word, activeReaders: Word)

  datatype State = State(lock: Lock, pcs: seq<Pc>)

  datatype Outcome = Running(state: State) | AssertFailed

  /** One scheduling decision: which CPU steps, and what it asks for if it is outside. */
  datatype Turn = Turn(cpu: nat, exclusive: bool)

  function Increment16(w: Word): Word { (w + 1) % WORD_RANGE }

  function Decrement16(w: Word): Word { (w + WORD_RANGE - 1) % WORD_RANGE }

  /** A 32-bit compare-exchange over two adjacent words, low word first: the value read, and
      the words afterwards. */
  function CompareExchange(low: Word, high: Word, exchange: int, comparand: int): (r: (int, Word, Word))
    requires 0 <= exchange < WORD_RANGE * WORD_RANGE
  {
    var value := low + WORD_RANGE * high;
    if value == comparand then (value, exchange % WORD_RANGE, exchange / WORD_RANGE) else (value, low, high)
  }

  /** One instruction of one CPU. */
  function Next(s: State, c: nat, exclusive: bool): (r: Outcome)
    requires c < |s.pcs|
    ensures r.Running? ==> |r.state.pcs| == |s.pcs|
  {
    var l := s.lock;
    match s.pcs[c]
    case Outside =>
      if exclusive then
        Running(State(l.(waitingWriters := Increment16(l.waitingWriters)), s.pcs[c := WriterSpin]))
      else Running(s.(pcs := s.pcs[c := ReaderSpin]))
    case WriterSpin =>
      var (value, activeWriter, activeReaders) := CompareExchange(l.activeWriter, l.activeReaders, 1, 0);
      if value != 0 then Running(s)
      else Running(State(l.(activeWriter := activeWriter, activeReaders := activeReaders), s.pcs[c := WriterUnwait]))
    case WriterUnwait =>
      Running(State(l.(waitingWriters := Decrement16(l.waitingWriters)), s.pcs[c := WriterInside]))
    case WriterInside => Running(s.(pcs := s.pcs[c := WriterCheck]))
    case WriterCheck =>
      if l.activeWriter == 1 then Running(s.(pcs := s.pcs[c := WriterLeave])) else AssertFailed
    case WriterLeave =>
      Running(State(l.(activeWriter := Decrement16(l.activeWriter)), s.pcs[c := Outside]))
    case ReaderSpin =>
      var (value, waitingWriters, activeWriter) := CompareExchange(l.waitingWriters, l.activeWriter, WORD_RANGE, 0);
      if value != 0 then Running(s)
      else Running(State(l.(waitingWriters := waitingWriters, activeWriter := activeWriter), s.pcs[c := ReaderCount]))
    case ReaderCount =>
      Running(State(l.(activeReaders := Increment16(l.activeReaders)), s.pcs[c := ReaderCheck]))
    case ReaderCheck =>
      if l.activeWriter == 1 then Running(s.(pcs := s.pcs[c := ReaderConfess])) else AssertFailed
    case ReaderConfess =>
      Running(State(l.(activeWriter := Decrement16(l.activeWriter)), s.pcs[c := ReaderInside]))
    case ReaderInside =>
      Running(State(l.(activeReaders := Decrement16(l.activeReaders)), s.pcs[c := Outside]))
  }

  function Run(s: State, turns: seq<Turn>): Outcome
    requires forall i :: 0 <= i < |turns| ==> turns[i].cpu < |s.pcs|
    decreases |turns|
  {
    if turns == [] then Running(s)
    else
      match Next(s, turns[0].cpu, turns[0].exclusive)
      case AssertFailed => AssertFailed
      case Running(s') => Run(s', turns[1..])
  }

  /** RwSpinlockInit, with every CPU outside. */
  function Initial(cpus: nat): State {
    State(Lock(0, 0, 0), seq(cpus, _ => Outside))
  }

  /** Counted in WaitingWriters. */
  function Waits(pc: Pc): nat {
    if pc.WriterSpin? || pc.WriterUnwait? then 1 else 0
  }

  /** Counted in ActiveWriter: writers from their exchange to their decrement, and readers that
      pretend to be one. */
  function Writes(pc: Pc): nat {
    if IsWriter(pc) || Pretends(pc) then 1 else 0
  }

  predicate IsWriter(pc: Pc) {
    pc.WriterUnwait? || pc.WriterInside? || pc.WriterCheck? || pc.WriterLeave?
  }

  predicate Pretends(pc: Pc) {
    pc.ReaderCount? || pc.ReaderCheck? || pc.ReaderConfess?
  }

  /** Counted in ActiveReaders. */
  function Reads(pc: Pc): nat {
    if pc.ReaderCheck? || pc.ReaderConfess? || pc.ReaderInside? then 1 else 0
  }

  /** A reader whose compare-exchange has succeeded. */
  predicate ReaderPassed(pc: Pc) {
    Pretends(pc) || pc.ReaderInside?
  }

  /** The counters are what their names say, modulo the word size; at most one CPU is counted
      as active writer; and while a real writer is inside, no reader is counted. */
  ghost predicate Inv(s: State) {
    && s.lock.waitingWriters == Total(s.pcs, Waits) % WORD_RANGE
    && s.lock.activeWriter == Total(s.pcs, Writes) <= 1
    && s.lock.activeReaders == Total(s.pcs, Reads) % WORD_RANGE
    && forall c, d :: 0 <= c < |s.pcs| && 0 <= d < |s.pcs| && IsWriter(s.pcs[c]) ==> !ReaderPassed(s.pcs[d])
  }

  /** No writer shares the lock with a reader or another writer. */
  ghost predicate Exclusive(s: State) {
    forall c, d :: 0 <= c < |s.pcs| && 0 <= d < |s.pcs| && c != d && IsWriter(s.pcs[c]) ==>
      !IsWriter(s.pcs[d]) && !ReaderPassed(s.pcs[d])
  }

  lemma {:induction false} InvInitially(cpus: nat)
    ensures Inv(Initial(cpus))
  {
    TotalZero(Initial(cpus).pcs, Waits);
    TotalZero(Initial(cpus).pcs, Writes);
    TotalZero(Initial(cpus).pcs, Reads);
  }

  lemma StepTotals(s: State, c: nat, pc: Pc)
    requires c < |s.pcs|
    ensures Total(s.pcs[c := pc], Waits) == Total(s.pcs, Waits) - Waits(s.pcs[c]) + Waits(pc)
    ensures Total(s.pcs[c := pc], Writes) == Total(s.pcs, Writes) - Writes(s.pcs[c]) + Writes(pc)
    ensures Total(s.pcs[c := pc], Reads) == Total(s.pcs, Reads) - Reads(s.pcs[c]) + Reads(pc)
    ensures Waits(s.pcs[c]) <= Total(s.pcs, Waits) <= |s.pcs| - 1 + Waits(s.pcs[c])
    ensures Writes(s.pcs[c]) <= Total(s.pcs, Writes) <= |s.pcs| - 1 + Writes(s.pcs[c])
    ensures Reads(s.pcs[c]) <= Total(s.pcs, Reads) <= |s.pcs| - 1 + Reads(s.pcs[c])
  {
    TotalUpdate(s.pcs, Waits, c, pc);
    TotalUpdate(s.pcs, Writes, c, pc);
    TotalUpdate(s.pcs, Reads, c, pc);
    TotalBounds(s.pcs, Waits, c);
    TotalBounds(s.pcs, Writes, c);
    TotalBounds(s.pcs, Reads, c);
  }

  /** A CPU counted as active writer is the only one. */
  lemma OnlyOneWrites(s: State, c: nat, d: nat)
    requires Inv(s) && c < |s.pcs| && d < |s.pcs| && c != d && Writes(s.pcs[c]) == 1
    ensures Writes(s.pcs[d]) == 0
  {
    TotalOfTwo(s.pcs, Writes, c, d);
  }

  lemma NoneReads(s: State, d: nat)
    requires Total(s.pcs, Reads) == 0 && Total(s.pcs, Writes) == 0 && d < |s.pcs|
    ensures !ReaderPassed(s.pcs[d]) && !IsWriter(s.pcs[d])
  {
    TotalOfOne(s.pcs, Reads, d);
    TotalOfOne(s.pcs, Writes, d);
  }

  /** Every step of every CPU keeps the invariant, and no ASSERT fails. */
  lemma StepKeepsInv(s: State, c: nat, exclusive: bool)
    requires Inv(s) && c < |s.pcs| <= MAX_CPUS
    ensures Next(s, c, exclusive).Running?
    ensures Inv(Next(s, c, exclusive).state)
  {
    hide Total;
    var pc := s.pcs[c];
    StepTotals(s, c, pc);
    var s' := Next(s, c, exclusive).state;
    StepTotals(s, c, s'.pcs[c]);
    assert s'.pcs == s.pcs[c := s'.pcs[c]];
    if Writes(pc) == 1 {
      forall d | 0 <= d < |s.pcs| && d != c
        ensures Writes(s.pcs[d]) == 0
      {
        OnlyOneWrites(s, c, d);
      }
    }
    if pc.WriterSpin? && s' != s {
      forall d | 0 <= d < |s.pcs|
        ensures !ReaderPassed(s.pcs[d]) && !IsWriter(s.pcs[d])
      {
        NoneReads(s, d);
      }
    }
    if pc.ReaderSpin? && s' != s {
      forall d | 0 <= d < |s.pcs|
        ensures !IsWriter(s.pcs[d])
      {
        TotalOfOne(s.pcs, Writes, d);
      }
    }
  }

  lemma InvIsExclusive(s: State)
    requires Inv(s)
    ensures Exclusive(s)
  {
    forall c, d | 0 <= c < |s.pcs| && 0 <= d < |s.pcs| && c != d && IsWriter(s.pcs[c])
      ensures !IsWriter(s.pcs[d])
    {
      OnlyOneWrites(s, c, d);
    }
  }

  lemma {:induction false} RunKeepsInv(s: State, turns: seq<Turn>)
    requires Inv(s) && |s.pcs| <= MAX_CPUS
    requires forall i :: 0 <= i < |turns| ==> turns[i].cpu < |s.pcs|
    ensures Run(s, turns).Running?
    ensures Inv(Run(s, turns).state) && |Run(s, turns).state.pcs| == |s.pcs|
    decreases |turns|
  {
    if turns != [] {
      StepKeepsInv(s, turns[0].cpu, turns[0].exclusive);
      RunKeepsInv(Next(s, turns[0].cpu, turns[0].exclusive).state, turns[1..]);
    }
  }

  // ---------------------------------------------------------------- the CPU bound is exact

  ghost predicate Schedules(turns: seq<Turn>, cpus: nat) {
    forall i :: 0 <= i < |turns| ==> turns[i].cpu < cpus
  }

  /** Whatever the interleaving, no ASSERT fails and no writer shares the lock. */
  ghost predicate SafeFor(cpus: nat) {
    forall turns :: Schedules(turns, cpus) ==>
      Run(Initial(cpus), turns).Running? && Exclusive(Run(Initial(cpus), turns).state)
  }

  lemma {:induction false} RunAppend(s: State, xs: seq<Turn>, ys: seq<Turn>)
    requires Schedules(xs, |s.pcs|) && Schedules(ys, |s.pcs|)
    requires Run(s, xs).Running?
    ensures |Run(s, xs).state.pcs| == |s.pcs|
    ensures Schedules(xs + ys, |s.pcs|)
    ensures Run(s, xs + ys) == Run(Run(s, xs).state, ys)
    decreases |xs|
  {
    if xs == [] {
      assert xs + ys == ys;
    } else {
      RunAppend(Next(s, xs[0].cpu, xs[0].exclusive).state, xs[1..], ys);
      assert (xs + ys)[1..] == xs[1..] + ys;
    }
  }

  /** CPUs 0 to `k - 1` are inside as readers, the others outside. */
  function Crowded(cpus: nat, k: nat): State {
    State(Lock(0, 0, k % WORD_RANGE), seq(cpus, i => if i < k then ReaderInside else Outside))
  }

  function ReaderTurns(c: nat): seq<Turn> {
    [Turn(c, false), Turn(c, false), Turn(c, false), Turn(c, false), Turn(c, false)]
  }

  function CrowdTurns(k: nat): (r: seq<Turn>)
    ensures Schedules(r, k)
  {
    if k == 0 then [] else CrowdTurns(k - 1) + ReaderTurns(k - 1)
  }

  lemma RunOne(s: State, c: nat, exclusive: bool, rest: seq<Turn>)
    requires c < |s.pcs| && Schedules(rest, |s.pcs|) && Next(s, c, exclusive).Running?
    ensures Run(s, [Turn(c, exclusive)] + rest) == Run(Next(s, c, exclusive).state, rest)
  {
    assert ([Turn(c, exclusive)] + rest)[1..] == rest;
  }

  lemma OneMoreReader(cpus: nat, k: nat)
    requires k < cpus
    ensures Run(Crowded(cpus, k), ReaderTurns(k)) == Running(Crowded(cpus, k + 1))
  {
    var s := Crowded(cpus, k);
    var t := Turn(k, false);
    var s1 := State(s.lock, s.pcs[k := ReaderSpin]);
    var s2 := State(s.lock.(activeWriter := 1), s.pcs[k := ReaderCount]);
    var s3 := State(Lock(0, 1, (k + 1) % WORD_RANGE), s.pcs[k := ReaderCheck]);
    var s4 := State(s3.lock, s.pcs[k := ReaderConfess]);
    var s5 := State(Lock(0, 0, (k + 1) % WORD_RANGE), s.pcs[k := ReaderInside]);
    assert Next(s, k, false) == Running(s1);
    assert Next(s1, k, false) == Running(s2);
    assert Next(s2, k, false) == Running(s3);
    assert Next(s3, k, false) == Running(s4);
    assert Next(s4, k, false) == Running(s5);
    assert s5 == Crowded(cpus, k + 1);
    assert [t, t, t, t, t] == [t] + [t, t, t, t] && [t, t, t, t] == [t] + [t, t, t]
           && [t, t, t] == [t] + [t, t] && [t, t] == [t] + [t] && [t] == [t] + [];
    RunOne(s, k, false, [t, t, t, t]);
    RunOne(s1, k, false, [t, t, t]);
    RunOne(s2, k, false, [t, t]);
    RunOne(s3, k, false, [t]);
    RunOne(s4, k, false, []);
  }

  lemma {:induction false} CrowdRun(cpus: nat, k: nat)
    requires k <= cpus
    ensures Run(Initial(cpus), CrowdTurns(k)) == Running(Crowded(cpus, k))
  {
    if k == 0 {
      assert Crowded(cpus, 0) == Initial(cpus);
    } else {
      CrowdRun(cpus, k - 1);
      RunAppend(Initial(cpus), CrowdTurns(k - 1), ReaderTurns(k - 1));
      OneMoreReader(cpus, k - 1);
    }
  }

  /** With more CPUs, 65536 readers wrap ActiveReaders to 0 and a writer joins them. */
  lemma WriterJoinsCrowd(cpus: nat)
    requires cpus > MAX_CPUS
    ensures !SafeFor(cpus)
  {
    hide Run, CrowdTurns, Crowded;
    var w := MAX_CPUS;
    var s := Crowded(cpus, w);
    CrowdedLock(cpus, w);
    var s1 := State(s.lock.(waitingWriters := 1), s.pcs[w := WriterSpin]);
    var s2 := State(s1.lock.(activeWriter := 1), s.pcs[w := WriterUnwait]);
    assert Next(s, w, true) == Running(s1);
    assert Next(s1, w, true) == Running(s2) by {
      assert s1.pcs[w := WriterUnwait] == s.pcs[w := WriterUnwait];
    }
    var turns := [Turn(w, true)] + [Turn(w, true)];
    assert [Turn(w, true)] == [Turn(w, true)] + [];
    RunOne(s, w, true, [Turn(w, true)]);
    RunOne(s1, w, true, []);
    RunNone(s2);
    CrowdRun(cpus, w);
    assert Schedules(CrowdTurns(w), cpus);
    RunAppend(Initial(cpus), CrowdTurns(w), turns);
    assert IsWriter(s2.pcs[w]) && ReaderPassed(s2.pcs[0]);
    assert !Exclusive(Run(Initial(cpus), CrowdTurns(w) + turns).state);
  }

  lemma RunNone(s: State)
    ensures Run(s, []) == Running(s)
  {
  }

  lemma CrowdedLock(cpus: nat, k: nat)
    requires 0 < k < cpus && k % WORD_RANGE == 0
    ensures Crowded(cpus, k).lock == Lock(0, 0, 0) && |Crowded(cpus, k).pcs| == cpus
    ensures Crowded(cpus, k).pcs[k] == Outside && Crowded(cpus, k).pcs[0] == ReaderInside
  {
  }

  /** The lock is safe under every interleaving exactly when at most 65536 CPUs use it. */
  lemma SafeExactlyUpToMaxCpus(cpus: nat)
    ensures SafeFor(cpus) <==> cpus <= MAX_CPUS
  {
    if cpus <= MAX_CPUS {
      forall turns | Schedules(turns, cpus)
        ensures Run(Initial(cpus), turns).Running? && Exclusive(Run(Initial(cpus), turns).state)
      {
        InvInitially(cpus);
        RunKeepsInv(Initial(cpus), turns);
        InvIsExclusive(Run(Initial(cpus), turns).state);
      }
    } else {
      WriterJoinsCrowd(cpus);
    }
  }

  // ---------------------------------------------------------------- writer priority

  lemma ReaderCannotPass(s: State, w: nat, c: nat, exclusive: bool)
    requires Inv(s) && w < |s.pcs| <= MAX_CPUS && c < |s.pcs|
    requires Waits(s.pcs[w]) == 1 && s.pcs[c].ReaderSpin?
    ensures Next(s, c, exclusive) == Running(s)
  {
    TotalBounds(s.pcs, Waits, c);
    TotalBounds(s.pcs, Waits, w);
  }

  /** As long as a writer waits, from its increment of WaitingWriters to its decrement, no
      reader gets past its compare-exchange: who is past it at the end already was at the start. */
  lemma {:induction false} NoReaderPassesWaitingWriter(s: State, turns: seq<Turn>, w: nat, c: nat)
    requires Inv(s) && w < |s.pcs| <= MAX_CPUS && c < |s.pcs| && Schedules(turns, |s.pcs|)
    requires forall k :: 0 <= k <= |turns| ==>
      Run(s, turns[..k]).Running? && w < |Run(s, turns[..k]).state.pcs|
      && Waits(Run(s, turns[..k]).state.pcs[w]) == 1
    ensures Run(s, turns).Running? && c < |Run(s, turns).state.pcs|
    ensures ReaderPassed(Run(s, turns).state.pcs[c]) ==> ReaderPassed(s.pcs[c])
    decreases |turns|
  {
    if turns != [] {
      var t, rest := turns[0], turns[1..];
      assert turns[..0] == [];
      if t.cpu == c && s.pcs[c].ReaderSpin? {
        ReaderCannotPass(s, w, c, t.exclusive);
      }
      StepKeepsInv(s, t.cpu, t.exclusive);
      var s' := Next(s, t.cpu, t.exclusive).state;
      forall k | 0 <= k <= |rest|
        ensures Run(s', rest[..k]) == Run(s, turns[..k + 1])
      {
        assert turns[..k + 1][1..] == rest[..k];
      }
      NoReaderPassesWaitingWriter(s', rest, w, c);
    }
  }

  // ---------------------------------------------------------------- progress

  /** Steps a CPU still needs to be outside again, if it never has to spin. */
  function Rank(pc: Pc): nat {
    match pc
    case Outside => 0
    case WriterSpin => 5 case WriterUnwait => 4 case WriterInside => 3 case WriterCheck => 2 case WriterLeave => 1
    case ReaderSpin => 5 case ReaderCount => 4 case ReaderCheck => 3 case ReaderConfess => 2 case ReaderInside => 1
  }

  predicate Spins(pc: Pc) { pc.WriterSpin? || pc.ReaderSpin? }

  /** When nobody is between two exchanges or holds the lock, the words let a waiter in:
      a waiting writer if there is one, else a waiting reader. */
  lemma FreeLockAdmitsWaiter(s: State, c: nat) returns (d: nat)
    requires Inv(s) && c < |s.pcs| <= MAX_CPUS && Spins(s.pcs[c])
    requires forall e :: 0 <= e < |s.pcs| ==> s.pcs[e].Outside? || Spins(s.pcs[e])
    ensures d < |s.pcs| && Spins(s.pcs[d]) && Next(s, d, true) == Next(s, d, false)
    ensures Next(s, d, true).Running? && Rank(Next(s, d, true).state.pcs[d]) == Rank(s.pcs[d]) - 1
    ensures |Next(s, d, true).state.pcs| == |s.pcs|
  {
    TotalZero(s.pcs, Writes);
    TotalZero(s.pcs, Reads);
    if exists e :: 0 <= e < |s.pcs| && s.pcs[e].WriterSpin? {
      d :| 0 <= d < |s.pcs| && s.pcs[d].WriterSpin?;
    } else {
      TotalZero(s.pcs, Waits);
      d := c;
    }
  }

  /** Whenever some CPU has business with the lock, one of them has a step that is not a failed
      spin; so with a waiter and no holder, a CPU inside acquire or release can go on. */
  lemma SomeoneMoves(s: State, c: nat) returns (d: nat)
    requires Inv(s) && c < |s.pcs| <= MAX_CPUS && !s.pcs[c].Outside?
    ensures d < |s.pcs| && !s.pcs[d].Outside? && Next(s, d, true) == Next(s, d, false)
    ensures Next(s, d, true).Running? && |Next(s, d, true).state.pcs| == |s.pcs|
    ensures Next(s, d, true).state.pcs == s.pcs[d := Next(s, d, true).state.pcs[d]]
    ensures Rank(Next(s, d, true).state.pcs[d]) == Rank(s.pcs[d]) - 1
  {
    if exists e :: 0 <= e < |s.pcs| && !s.pcs[e].Outside? && !Spins(s.pcs[e]) {
      d :| 0 <= d < |s.pcs| && !s.pcs[d].Outside? && !Spins(s.pcs[d]);
    } else {
      d := FreeLockAdmitsWaiter(s, c);
    }
    StepKeepsInv(s, d, true);
  }

  /** No reachable state is stuck: without any new request, some schedule of exactly the
      outstanding steps brings every CPU outside again and all three words back to 0. */
  lemma {:induction false} Drains(s: State) returns (turns: seq<Turn>)
    requires Inv(s) && |s.pcs| <= MAX_CPUS
    ensures Schedules(turns, |s.pcs|) && |turns| == Total(s.pcs, Rank)
    ensures Run(s, turns) == Running(Initial(|s.pcs|))
    decreases Total(s.pcs, Rank)
  {
    if Total(s.pcs, Rank) == 0 {
      turns := [];
      forall c | 0 <= c < |s.pcs|
        ensures s.pcs[c] == Outside
      {
        TotalOfOne(s.pcs, Rank, c);
      }
      assert s.pcs == Initial(|s.pcs|).pcs;
      InvInitially(|s.pcs|);
    } else {
      var c := PositiveMember(s.pcs, Rank);
      var d := SomeoneMoves(s, c);
      StepKeepsInv(s, d, true);
      var s' := Next(s, d, true).state;
      TotalUpdate(s.pcs, Rank, d, s'.pcs[d]);
      var rest := Drains(s');
      turns := [Turn(d, true)] + rest;
      RunOne(s, d, true, rest);
    }
  }

  // ---------------------------------------------------------------- the lock in memory

  class RwLock {
    var waitingWriters: Word
    var activeWriter: Word
    var activeReaders: Word
    var pcs: seq<Pc>

    function Value(): State
      reads this
    {
      State(Lock(waitingWriters, activeWriter, activeReaders), pcs)
    }

    constructor (cpus: nat)
      ensures Value() == Initial(cpus)
    {
      waitingWriters, activeWriter, activeReaders := 0, 0, 0;
      pcs := seq(cpus, _ => Outside);
    }

    /** CPU `c` executes its next instruction; false means its ASSERT failed. */
    method Step(c: nat, exclusive: bool) returns (ok: bool)
      requires c < |pcs|
      modifies this
      ensures Next(old(Value()), c, exclusive) == if ok then Running(Value()) else AssertFailed
      ensures !ok ==> Value() == old(Value())
    {
      ok := true;
      match pcs[c] {
        case Outside =>
          if exclusive {
            waitingWriters := Increment16(waitingWriters);
            pcs := pcs[c := WriterSpin];
          } else {
            pcs := pcs[c := ReaderSpin];
          }
        case WriterSpin =>
          var (value, low, high) := CompareExchange(activeWriter, activeReaders, 1, 0);
          activeWriter, activeReaders := low, high;
          if value == 0 {
            pcs := pcs[c := WriterUnwait];
          }
        case WriterUnwait =>
          waitingWriters := Decrement16(waitingWriters);
          pcs := pcs[c := WriterInside];
        case WriterInside =>
          pcs := pcs[c := WriterCheck];
        case WriterCheck =>
          ok := activeWriter == 1;
          pcs := if ok then pcs[c := WriterLeave] else pcs;
        case WriterLeave =>
          activeWriter := Decrement16(activeWriter);
          pcs := pcs[c := Outside];
        case ReaderSpin =>
          var (value, low, high) := CompareExchange(waitingWriters, activeWriter, WORD_RANGE, 0);
          waitingWriters, activeWriter := low, high;
          if value == 0 {
            pcs := pcs[c := ReaderCount];
          }
        case ReaderCount =>
          activeReaders := Increment16(activeReaders);
          pcs := pcs[c := ReaderCheck];
        case ReaderCheck =>
          ok := activeWriter == 1;
          pcs := if ok then pcs[c := ReaderConfess] else pcs;
        case ReaderConfess =>
          activeWriter := Decrement16(activeWriter);
          pcs := pcs[c := ReaderInside];
        case ReaderInside =>
          activeReaders := Decrement16(activeReaders);
          pcs := pcs[c := Outside];
      }
    }

    /** Any number of steps of up to 65536 CPUs, in any order: no ASSERT ever fails. */
    method Execute(turns: seq<Turn>)
      requires Inv(Value()) && |pcs| <= MAX_CPUS && Schedules(turns, |pcs|)
      modifies this
      ensures Run(old(Value()), turns) == Running(Value())
      ensures Inv(Value()) && Exclusive(Value()) && |pcs| == |old(pcs)|
    {
      ghost var s := Value();
      for i := 0 to |turns|
        invariant Inv(Value()) && |pcs| == |s.pcs|
        invariant Run(s, turns[..i]) == Running(Value())
      {
        StepKeepsInv(Value(), turns[i].cpu, turns[i].exclusive);
        ghost var before := Value();
        var ok := Step(turns[i].cpu, turns[i].exclusive);
        assert [turns[i]] + [] == [turns[i]];
        RunOne(before, turns[i].cpu, turns[i].exclusive, []);
        RunAppend(s, turns[..i], [turns[i]]);
        assert turns[..i + 1] == turns[..i] + [turns[i]];
      }
      assert turns[..|turns|] == turns;
      InvIsExclusive(Value());
    }
  }
}
