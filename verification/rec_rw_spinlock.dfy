/** The recursive reader/writer spinlock on top of the plain one: Holder and
    CurrentRecursivityDepth are ordinary words next to the inner lock, read and written one at
    a time by any CPU in any interleaving with the inner lock's own steps.
 */
module RecRwSpinlock {
  import Rw = RwSpinlock
  import opened Counting

  const BYTE_RANGE := 0x100
  const DEFAULT_MAX_DEPTH := 2

  type Byte = x: int | 0 <= x < BYTE_RANGE

  datatype Holder = NoCpu | Cpu(id: nat)

  datatype Request = AcquireExclusive | AcquireShared | Release

  /** What a CPU will execute next; `exclusive` is the argument of the call it is in. */
  datatype Pc =
    | Idle
    | AskHolder                        // if (Spinlock->Holder == pCurrentCpu)
    | CheckDepth                       // ASSERT(CurrentRecursivityDepth < MaxRecursivityDepth)
    | BumpDepth                        // CurrentRecursivityDepth++
    | InnerAcquire(exclusive: bool)    // somewhere in RwSpinlockAcquire
    | CheckHolder(exclusive: bool)     // ASSERT(NULL == Holder)
    | CheckNoDepth(exclusive: bool)    // ASSERT(0 == CurrentRecursivityDepth)
    | SetDepth                         // CurrentRecursivityDepth = 1
    | SetHolder                        // Holder = CpuGetCurrent()
    | HeldExclusive
    | HeldShared
    | ReleaseCheck                     // ASSERT(pCurrentCpu == Holder)
    | DropDepth                        // CurrentRecursivityDepth--
    | TestDepth(exclusive: bool)       // if (0 == CurrentRecursivityDepth || !Exclusive)
    | ClearHolder(exclusive: bool)     // Holder = NULL
    | InnerRelease(exclusive: bool)    // somewhere in RwSpinlockRelease

  /** `nesting[c]` is history, not memory: the exclusive acquires CPU `c` has completed minus
      the exclusive releases it has called. */
  datatype State = State(inner: Rw.State, holder: Holder, depth: Byte, maxDepth: Byte,
                         pcs: seq<Pc>, nesting: seq<nat>)

  datatype Outcome = Running(state: State) | TooDeep | AssertFailed

  datatype Turn = Turn(cpu: nat, request: Request)

  predicate Shaped(s: State) {
    |s.inner.pcs| == |s.pcs| == |s.nesting|
  }

  function At(s: State, c: nat, pc: Pc): State
    requires c < |s.pcs|
  {
    s.(pcs := s.pcs[c := pc])
  }

  /** One step of CPU `c` inside the inner lock's code. */
  function InnerStep(s: State, c: nat, exclusive: bool, done: Rw.Pc, after: Pc): Outcome
    requires Shaped(s) && c < |s.pcs|
  {
    match Rw.Next(s.inner, c, exclusive)
    case AssertFailed => AssertFailed
    case Running(inner) =>
      Running(s.(inner := inner, pcs := if inner.pcs[c] == done then s.pcs[c := after] else s.pcs))
  }

  function Next(s: State, c: nat, request: Request): (r: Outcome)
    requires Shaped(s) && c < |s.pcs|
    ensures r.Running? ==> Shaped(r.state) && |r.state.pcs| == |s.pcs|
  {
    match s.pcs[c]
    case Idle =>
      Running(match request
              case AcquireExclusive => At(s, c, AskHolder)
              case AcquireShared => At(s, c, InnerAcquire(false))
              case Release => s)
    case AskHolder => Running(At(s, c, if s.holder == Cpu(c) then CheckDepth else InnerAcquire(true)))
    case CheckDepth => if s.depth < s.maxDepth then Running(At(s, c, BumpDepth)) else TooDeep
    case BumpDepth =>
      Running(At(s, c, HeldExclusive).(depth := (s.depth + 1) % BYTE_RANGE, nesting := s.nesting[c := s.nesting[c] + 1]))
    case InnerAcquire(exclusive) =>
      InnerStep(s, c, exclusive, if exclusive then Rw.WriterInside else Rw.ReaderInside, CheckHolder(exclusive))
    case CheckHolder(exclusive) => if s.holder == NoCpu then Running(At(s, c, CheckNoDepth(exclusive))) else AssertFailed
    case CheckNoDepth(exclusive) =>
      if s.depth == 0 then Running(At(s, c, if exclusive then SetDepth else HeldShared)) else AssertFailed
    case SetDepth => Running(At(s, c, SetHolder).(depth := 1))
    case SetHolder =>
      Running(At(s, c, HeldExclusive).(holder := Cpu(c), nesting := s.nesting[c := s.nesting[c] + 1]))
    case HeldExclusive =>
      Running(match request
              case AcquireExclusive => At(s, c, AskHolder)
              case AcquireShared => s
              case Release =>
                At(s, c, ReleaseCheck).(nesting := if s.nesting[c] > 0 then s.nesting[c := s.nesting[c] - 1] else s.nesting))
    case HeldShared => Running(At(s, c, TestDepth(false)))
    case ReleaseCheck => if s.holder == Cpu(c) then Running(At(s, c, DropDepth)) else AssertFailed
    case DropDepth => Running(At(s, c, TestDepth(true)).(depth := (s.depth + BYTE_RANGE - 1) % BYTE_RANGE))
    case TestDepth(exclusive) =>
      Running(At(s, c, if s.depth == 0 || !exclusive then ClearHolder(exclusive) else HeldExclusive))
    case ClearHolder(exclusive) => Running(At(s, c, InnerRelease(exclusive)).(holder := NoCpu))
    case InnerRelease(exclusive) => InnerStep(s, c, exclusive, Rw.Outside, Idle)
  }

  /** RecRwSpinlockInit. */
  function Initial(cpus: nat, recursivityDepth: Byte): State {
    State(Rw.Initial(cpus), NoCpu, 0, if recursivityDepth == 0 then DEFAULT_MAX_DEPTH else recursivityDepth,
          seq(cpus, _ => Idle), seq(cpus, _ => 0))
  }

  predicate Acquiring(p: Rw.Pc, exclusive: bool) {
    if exclusive then p.Outside? || p.WriterSpin? || p.WriterUnwait?
    else p.Outside? || p.ReaderSpin? || p.ReaderCount? || p.ReaderCheck? || p.ReaderConfess?
  }

  predicate Releasing(p: Rw.Pc, exclusive: bool) {
    if exclusive then p.WriterInside? || p.WriterCheck? || p.WriterLeave? else p.ReaderInside?
  }

  predicate Inside(p: Rw.Pc, exclusive: bool) {
    if exclusive then p.WriterInside? else p.ReaderInside?
  }

  /** How a CPU's place in the wrapper, its place in the inner lock, the two words and its
      nesting fit together. */
  predicate Fits(pc: Pc, p: Rw.Pc, mine: bool, depth: int, maxDepth: int, nest: nat) {
    match pc
    case Idle => p.Outside? && !mine && nest == 0
    case AskHolder =>
      if mine then p.WriterInside? && depth == nest && 1 <= nest <= maxDepth else p.Outside? && nest == 0
    case CheckDepth => mine && p.WriterInside? && depth == nest && 1 <= nest <= maxDepth
    case BumpDepth => mine && p.WriterInside? && depth == nest && 1 <= nest < maxDepth
    case InnerAcquire(exclusive) => !mine && Acquiring(p, exclusive) && nest == 0
    case CheckHolder(exclusive) => !mine && Inside(p, exclusive) && nest == 0
    case CheckNoDepth(exclusive) => !mine && Inside(p, exclusive) && nest == 0
    case SetDepth => !mine && p.WriterInside? && nest == 0 && depth == 0
    case SetHolder => !mine && p.WriterInside? && nest == 0 && depth == 1
    case HeldExclusive => mine && p.WriterInside? && depth == nest && 1 <= nest <= maxDepth
    case HeldShared => !mine && p.ReaderInside? && nest == 0
    case ReleaseCheck => mine && p.WriterInside? && depth == nest + 1 <= maxDepth
    case DropDepth => mine && p.WriterInside? && depth == nest + 1 <= maxDepth
    case TestDepth(exclusive) =>
      if exclusive then mine && p.WriterInside? && depth == nest < maxDepth else !mine && p.ReaderInside? && nest == 0
    case ClearHolder(exclusive) =>
      nest == 0 && if exclusive then mine && p.WriterInside? && depth == 0 else !mine && p.ReaderInside?
    case InnerRelease(exclusive) => !mine && Releasing(p, exclusive) && nest == 0
  }

  predicate FitsAt(s: State, c: nat)
    requires |s.inner.pcs| == |s.pcs| == |s.nesting| && c < |s.pcs|
  {
    Fits(s.pcs[c], s.inner.pcs[c], s.holder == Cpu(c), s.depth, s.maxDepth, s.nesting[c])
  }

  ghost predicate Inv(s: State) {
    && Shaped(s) && |s.pcs| <= Rw.MAX_CPUS && 1 <= s.maxDepth
    && Rw.Inv(s.inner)
    && (s.holder.Cpu? ==> s.holder.id < |s.pcs|)
    && (forall c :: 0 <= c < |s.pcs| ==> FitsAt(s, c))
    && (s.holder == NoCpu && (forall c :: 0 <= c < |s.pcs| ==> s.pcs[c] != SetHolder) ==> s.depth == 0)
  }

  lemma InvInitially(cpus: nat, recursivityDepth: Byte)
    requires cpus <= Rw.MAX_CPUS
    ensures Inv(Initial(cpus, recursivityDepth))
  {
    Rw.InvInitially(cpus);
  }

  /** While a CPU is inside the inner lock, in either mode, no other CPU is inside for writing. */
  lemma WriterIsAlone(s: State, c: nat, d: nat)
    requires Shaped(s) && Rw.Inv(s.inner) && c < |s.pcs| && d < |s.pcs| && c != d
    requires Rw.IsWriter(s.inner.pcs[c])
    ensures !Rw.IsWriter(s.inner.pcs[d]) && !Rw.ReaderPassed(s.inner.pcs[d])
  {
    Rw.InvIsExclusive(s.inner);
  }

  /** When CPU `c` has just got the inner lock, nobody holds the wrapper: Holder is NULL and the
      depth is 0, so the two ASSERTs after acquiring cannot fail. */
  lemma FreshAcquireSeesNoHolder(s: State, c: nat)
    requires Inv(s) && c < |s.pcs| && s.holder != Cpu(c) && s.pcs[c] != SetHolder
    requires s.inner.pcs[c].WriterInside? || s.inner.pcs[c].ReaderInside?
    ensures s.holder == NoCpu && s.depth == 0
    ensures forall d :: 0 <= d < |s.pcs| && d != c ==> !s.inner.pcs[d].WriterInside?
  {
    forall d | 0 <= d < |s.pcs| && d != c
      ensures !s.inner.pcs[d].WriterInside? && s.holder != Cpu(d) && s.pcs[d] != SetHolder
    {
      if s.inner.pcs[d].WriterInside? {
        WriterIsAlone(s, d, c);
      }
      assert FitsAt(s, d);
    }
  }

  /** A step changes the inner lock only as the inner lock's own code does. */
  lemma InnerTakesOwnSteps(s: State, c: nat, request: Request)
    requires Inv(s) && c < |s.pcs| && Next(s, c, request).Running?
    ensures var inner := Next(s, c, request).state.inner;
      inner == s.inner || exists exclusive :: Rw.Next(s.inner, c, exclusive) == Rw.Running(inner)
  {
    if s.pcs[c].InnerAcquire? || s.pcs[c].InnerRelease? {
      assert Rw.Next(s.inner, c, s.pcs[c].exclusive) == Rw.Running(Next(s, c, request).state.inner);
    }
  }

  /** Inside the inner lock's code, CPU `c` stays consistent up to and including the last step. */
  lemma InnerStepFits(s: State, c: nat, request: Request)
    requires Inv(s) && c < |s.pcs| && (s.pcs[c].InnerAcquire? || s.pcs[c].InnerRelease?)
    ensures Next(s, c, request).Running?
    ensures var s' := Next(s, c, request).state;
      && Shaped(s') && s'.maxDepth == s.maxDepth && |s'.pcs| == |s.pcs|
      && Rw.Inv(s'.inner) && FitsAt(s', c)
  {
    hide Rw.Inv, Total;
    assert FitsAt(s, c);
    Rw.StepKeepsInv(s.inner, c, s.pcs[c].exclusive);
  }

  /** The step of CPU `c` itself: it does not fail an ASSERT other than the depth limit, and
      leaves `c` consistent. */
  lemma StepFitsOwn(s: State, c: nat, request: Request)
    requires Inv(s) && c < |s.pcs|
    ensures !Next(s, c, request).AssertFailed?
    ensures Next(s, c, request).TooDeep? <==> s.pcs[c].CheckDepth? && s.nesting[c] == s.maxDepth
    ensures Next(s, c, request).Running? ==>
      var s' := Next(s, c, request).state;
      && Shaped(s') && s'.maxDepth == s.maxDepth && |s'.pcs| == |s.pcs|
      && Rw.Inv(s'.inner) && FitsAt(s', c)
  {
    hide Rw.Inv, Rw.Next, Total;
    assert FitsAt(s, c);
    if s.pcs[c].InnerAcquire? || s.pcs[c].InnerRelease? {
      InnerStepFits(s, c, request);
    } else if s.pcs[c].CheckHolder? || s.pcs[c].CheckNoDepth? {
      FreshAcquireSeesNoHolder(s, c);
    }
  }

  /** What a step of CPU `c` can change as seen from CPU `d`. */
  lemma StepTouches(s: State, c: nat, request: Request, d: nat)
    requires Shaped(s) && c < |s.pcs| && d < |s.pcs| && d != c
    requires Next(s, c, request).Running?
    ensures var s' := Next(s, c, request).state;
      && Shaped(s') && |s'.pcs| == |s.pcs| && s'.maxDepth == s.maxDepth
      && s'.pcs[d] == s.pcs[d] && s'.inner.pcs[d] == s.inner.pcs[d] && s'.nesting[d] == s.nesting[d]
      && (s'.holder == s.holder || (s.pcs[c] == SetHolder && s'.holder == Cpu(c)) || (s.pcs[c].ClearHolder? && s'.holder == NoCpu))
      && (s'.depth == s.depth || s.pcs[c].BumpDepth? || s.pcs[c].SetDepth? || s.pcs[c].DropDepth?)
  {
    if s.pcs[c].InnerAcquire? || s.pcs[c].InnerRelease? {
      OtherPcStays(s.inner, c, s.pcs[c].exclusive, d);
    }
    hide Rw.Next;
  }

  lemma OtherPcStays(s: Rw.State, c: nat, exclusive: bool, d: nat)
    requires c < |s.pcs| && d < |s.pcs| && c != d && Rw.Next(s, c, exclusive).Running?
    ensures Rw.Next(s, c, exclusive).state.pcs[d] == s.pcs[d]
  {
  }

  /** The step of CPU `c` leaves every other CPU consistent. */
  lemma StepFitsOther(s: State, c: nat, request: Request, d: nat)
    requires Inv(s) && c < |s.pcs| && d < |s.pcs| && d != c
    requires Next(s, c, request).Running?
    ensures var s' := Next(s, c, request).state;
      Shaped(s') && |s'.pcs| == |s.pcs| && FitsAt(s', d) && s'.inner.pcs[d] == s.inner.pcs[d]
  {
    hide Rw.Inv, Rw.Next, Next, Total;
    StepTouches(s, c, request, d);
    assert FitsAt(s, c) && FitsAt(s, d);
    if s.pcs[c] == ClearHolder(false) {
      FreshAcquireSeesNoHolder(s, c);
    } else if s.inner.pcs[c].WriterInside? {
      WriterIsAlone(s, c, d);
    }
  }

  lemma StepKeepsInv(s: State, c: nat, request: Request)
    requires Inv(s) && c < |s.pcs|
    ensures !Next(s, c, request).AssertFailed?
    ensures Next(s, c, request).TooDeep? <==> s.pcs[c].CheckDepth? && s.nesting[c] == s.maxDepth
    ensures Next(s, c, request).Running? ==> Inv(Next(s, c, request).state)
  {
    hide Rw.Inv, Fits, Total;
    StepFitsOwn(s, c, request);
    if Next(s, c, request).Running? {
      var s' := Next(s, c, request).state;
      forall d | 0 <= d < |s'.pcs|
        ensures FitsAt(s', d)
      {
        if d != c {
          StepFitsOther(s, c, request, d);
        }
      }
      if s'.holder == NoCpu && forall d :: 0 <= d < |s'.pcs| ==> s'.pcs[d] != SetHolder {
        StepKeepsNoDepth(s, c, request);
      }
    }
  }

  /** Without a holder, or a CPU about to become one, the depth stays 0. */
  lemma StepKeepsNoDepth(s: State, c: nat, request: Request)
    requires Inv(s) && c < |s.pcs| && Next(s, c, request).Running?
    requires var s' := Next(s, c, request).state;
      s'.holder == NoCpu && forall d :: 0 <= d < |s'.pcs| ==> s'.pcs[d] != SetHolder
    ensures Next(s, c, request).state.depth == 0
  {
    hide Rw.Inv, Total;
    assert FitsAt(s, c);
    var s' := Next(s, c, request).state;
    assert forall d :: 0 <= d < |s.pcs| && d != c ==> s'.pcs[d] == s.pcs[d];
    assert s'.pcs[c] != SetHolder;
    assert forall d :: 0 <= d < |s.pcs| ==> s.pcs[d] != SetHolder;
    assert s.holder == NoCpu ==> s.depth == 0;
    if s.pcs[c] == ClearHolder(false) {
      FreshAcquireSeesNoHolder(s, c);
    }
  }

  // ---------------------------------------------------------------- what the invariant means

  /** Holder = c means that CPU `c` is inside for writing and nobody else is inside at all. The
      depth counts its nesting and is between 1 and the maximum, except that it is 0 between
      the outermost release's decrement and its clearing of Holder. */
  lemma HolderIsAlone(s: State, c: nat)
    requires Inv(s) && c < |s.pcs| && s.holder == Cpu(c)
    ensures s.inner.pcs[c].WriterInside?
    ensures forall d :: 0 <= d < |s.pcs| && d != c ==> !Rw.IsWriter(s.inner.pcs[d]) && !Rw.ReaderPassed(s.inner.pcs[d])
    ensures s.nesting[c] <= s.depth <= s.nesting[c] + 1 && s.depth <= s.maxDepth
    ensures s.depth == 0 <==> s.nesting[c] == 0 && (s.pcs[c] == TestDepth(true) || s.pcs[c] == ClearHolder(true))
    ensures s.pcs[c].HeldExclusive? ==> s.depth == s.nesting[c]
  {
    assert FitsAt(s, c);
    Rw.InvIsExclusive(s.inner);
  }

  /** A CPU with completed, unreleased exclusive acquires is the holder. */
  lemma NestedIsHolder(s: State, c: nat)
    requires Inv(s) && c < |s.pcs| && s.nesting[c] > 0
    ensures s.holder == Cpu(c) && s.inner.pcs[c].WriterInside?
  {
    assert FitsAt(s, c);
  }

  /** A release in shared mode writes Holder = NULL over a Holder that is NULL already, and at
      that time nobody is inside for writing. */
  lemma SharedReleaseErasesNoHolder(s: State, c: nat)
    requires Inv(s) && c < |s.pcs| && s.pcs[c] == ClearHolder(false)
    ensures s.holder == NoCpu
    ensures forall d :: 0 <= d < |s.pcs| ==> !Rw.IsWriter(s.inner.pcs[d])
  {
    assert FitsAt(s, c);
    FreshAcquireSeesNoHolder(s, c);
    Rw.InvIsExclusive(s.inner);
  }

  /** An exclusive release goes on to give up the inner lock exactly when it is the outermost. */
  lemma OutermostReleaseReleases(s: State, c: nat, request: Request)
    requires Inv(s) && c < |s.pcs| && s.pcs[c] == TestDepth(true)
    ensures Next(s, c, request).Running?
    ensures var pc := Next(s, c, request).state.pcs[c];
      pc == if s.nesting[c] == 0 then ClearHolder(true) else HeldExclusive
  {
    assert FitsAt(s, c);
  }

  /** Nothing but the outermost release takes a CPU out of the inner lock it holds for writing. */
  lemma WriterLeavesAtOutermostOnly(s: State, c: nat, d: nat, request: Request)
    requires Inv(s) && c < |s.pcs| && d < |s.pcs| && Next(s, d, request).Running?
    requires s.inner.pcs[c].WriterInside?
    requires c < |Next(s, d, request).state.inner.pcs| && !Next(s, d, request).state.inner.pcs[c].WriterInside?
    ensures d == c && s.pcs[c] == InnerRelease(true)
    ensures s.nesting[c] == 0 && s.holder != Cpu(c)
  {
    hide Rw.Inv, Total;
    assert FitsAt(s, c);
    if d != c {
      StepFitsOther(s, d, request, c);
    }
  }

  // ---------------------------------------------------------------- runs

  function Run(s: State, turns: seq<Turn>): Outcome
    requires Shaped(s)
    requires forall i :: 0 <= i < |turns| ==> turns[i].cpu < |s.pcs|
    decreases |turns|
  {
    if turns == [] then Running(s)
    else
      match Next(s, turns[0].cpu, turns[0].request)
      case AssertFailed => AssertFailed
      case TooDeep => TooDeep
      case Running(s') => Run(s', turns[1..])
  }

  /** Under every interleaving the invariant holds throughout, and the only ASSERT that can
      fail is the depth limit. */
  lemma {:induction false} RunKeepsInv(s: State, turns: seq<Turn>)
    requires Inv(s) && forall i :: 0 <= i < |turns| ==> turns[i].cpu < |s.pcs|
    ensures !Run(s, turns).AssertFailed?
    ensures Run(s, turns).Running? ==> Inv(Run(s, turns).state) && |Run(s, turns).state.pcs| == |s.pcs|
    decreases |turns|
  {
    if turns != [] {
      var t := turns[0];
      StepKeepsInv(s, t.cpu, t.request);
      if Next(s, t.cpu, t.request).Running? {
        RunKeepsInv(Next(s, t.cpu, t.request).state, turns[1..]);
      }
    }
  }

  // ---------------------------------------------------------------- progress

  /** Steps a CPU still needs to be idle, if it never has to spin and asks for nothing but releases. */
  function Work(pc: Pc, p: Rw.Pc, nest: nat): nat {
    match pc
    case Idle => 0
    case InnerRelease(_) => Rw.Rank(p)
    case ClearHolder(exclusive) => if exclusive then 4 else 2
    case TestDepth(exclusive) => if exclusive then 4 * nest + 5 else 3
    case DropDepth => 4 * nest + 6
    case ReleaseCheck => 4 * nest + 7
    case HeldExclusive => 4 * nest + 4
    case HeldShared => 4
    case BumpDepth => 4 * nest + 9
    case CheckDepth => 4 * nest + 10
    case AskHolder => if nest == 0 then 16 else 4 * nest + 11
    case SetHolder => 9
    case SetDepth => 10
    case CheckNoDepth(exclusive) => if exclusive then 11 else 5
    case CheckHolder(exclusive) => if exclusive then 12 else 6
    case InnerAcquire(exclusive) =>
      if p.Outside? then (if exclusive then 15 else 11) else Rw.Rank(p) + if exclusive then 9 else 5
  }

  function Works(s: State): (r: seq<nat>)
    requires Shaped(s)
    ensures |r| == |s.pcs| && forall c :: 0 <= c < |r| ==> r[c] == Work(s.pcs[c], s.inner.pcs[c], s.nesting[c])
  {
    seq(|s.pcs|, c requires 0 <= c < |s.pcs| => Work(s.pcs[c], s.inner.pcs[c], s.nesting[c]))
  }

  function Itself(n: nat): nat { n }

  function Outstanding(s: State): nat
    requires Shaped(s)
  {
    Total(Works(s), Itself)
  }

  /** CPU `c` is about to fail the depth limit: it is acquiring once more at the maximum depth. */
  predicate Doomed(s: State, c: nat)
    requires Shaped(s) && c < |s.pcs|
  {
    s.nesting[c] == s.maxDepth && (s.pcs[c].AskHolder? || s.pcs[c].CheckDepth?)
  }

  ghost predicate NoneDoomed(s: State)
    requires Shaped(s)
  {
    forall c :: 0 <= c < |s.pcs| ==> !Doomed(s, c)
  }

  predicate Spins(s: State, c: nat)
    requires Shaped(s) && c < |s.pcs|
  {
    s.pcs[c].InnerAcquire? && Rw.Spins(s.inner.pcs[c])
  }

  /** One step inside the inner lock that is not a failed spin. */
  lemma InnerMoves(s: Rw.State, c: nat, exclusive: bool)
    requires Rw.Inv(s) && c < |s.pcs| <= Rw.MAX_CPUS
    requires Rw.Spins(s.pcs[c]) ==>
      Rw.Next(s, c, true).Running? && Rw.Next(s, c, true).state.pcs[c] != s.pcs[c]
    ensures Rw.Next(s, c, exclusive).Running?
    ensures var p, p' := s.pcs[c], Rw.Next(s, c, exclusive).state.pcs[c];
      && (p.Outside? ==> p' == if exclusive then Rw.WriterSpin else Rw.ReaderSpin)
      && (!p.Outside? ==> Rw.Rank(p') == Rw.Rank(p) - 1)
      && (p.WriterUnwait? <==> p'.WriterInside?) && (p.ReaderConfess? <==> p'.ReaderInside?)
      && (Rw.Rank(p) == 1 ==> p'.Outside?)
  {
    Rw.StepKeepsInv(s, c, exclusive);
    hide Rw.Inv;
  }

  /** Whoever does not spin takes one step of its work. */
  lemma StepWorks(s: State, c: nat)
    requires Inv(s) && c < |s.pcs| && !s.pcs[c].Idle? && !Doomed(s, c)
    requires Spins(s, c) ==>
      Rw.Next(s.inner, c, true).Running? && Rw.Next(s.inner, c, true).state.pcs[c] != s.inner.pcs[c]
    ensures Next(s, c, Release).Running?
    ensures var s' := Next(s, c, Release).state;
      && Inv(s') && |s'.pcs| == |s.pcs| && s'.maxDepth == s.maxDepth
      && Work(s'.pcs[c], s'.inner.pcs[c], s'.nesting[c]) == Work(s.pcs[c], s.inner.pcs[c], s.nesting[c]) - 1
      && !Doomed(s', c)
  {
    hide Inv, Rw.Next, Next, Work, Spins, FitsAt;
    StepKeepsInv(s, c, Release);
    StepFitsOwn(s, c, Release);
    FitsNow(s, c);
    if s.pcs[c].InnerAcquire? || s.pcs[c].InnerRelease? {
      InnerMovesHere(s, c);
      InnerStepWorks(s, c);
    } else {
      OwnStepWorks(s, c);
    }
  }

  lemma OwnStepWorks(s: State, c: nat)
    requires Shaped(s) && c < |s.pcs| && FitsAt(s, c)
    requires !s.pcs[c].Idle? && !s.pcs[c].InnerAcquire? && !s.pcs[c].InnerRelease? && !Doomed(s, c)
    requires Next(s, c, Release).Running?
    ensures var s' := Next(s, c, Release).state;
      && Work(s'.pcs[c], s'.inner.pcs[c], s'.nesting[c]) == Work(s.pcs[c], s.inner.pcs[c], s.nesting[c]) - 1
      && !Doomed(s', c)
  {
    hide Rw.Next;
  }

  lemma InnerStepWorks(s: State, c: nat)
    requires Shaped(s) && c < |s.pcs| && FitsAt(s, c)
    requires s.pcs[c].InnerAcquire? || s.pcs[c].InnerRelease?
    requires Rw.Next(s.inner, c, s.pcs[c].exclusive).Running?
    requires var p, p' := s.inner.pcs[c], Rw.Next(s.inner, c, s.pcs[c].exclusive).state.pcs[c];
      && (p.Outside? ==> p' == if s.pcs[c].exclusive then Rw.WriterSpin else Rw.ReaderSpin)
      && (!p.Outside? ==> Rw.Rank(p') == Rw.Rank(p) - 1)
      && (p.WriterUnwait? <==> p'.WriterInside?) && (p.ReaderConfess? <==> p'.ReaderInside?)
      && (Rw.Rank(p) == 1 ==> p'.Outside?)
    ensures Next(s, c, Release).Running?
    ensures var s' := Next(s, c, Release).state;
      && Work(s'.pcs[c], s'.inner.pcs[c], s'.nesting[c]) == Work(s.pcs[c], s.inner.pcs[c], s.nesting[c]) - 1
      && !Doomed(s', c)
  {
    hide Rw.Next;
  }

  lemma FitsNow(s: State, c: nat)
    requires Inv(s) && c < |s.pcs|
    ensures Shaped(s) && FitsAt(s, c)
  {
  }

  lemma InnerMovesHere(s: State, c: nat)
    requires Inv(s) && c < |s.pcs|
    requires s.pcs[c].InnerAcquire? || s.pcs[c].InnerRelease?
    requires Spins(s, c) ==>
      Rw.Next(s.inner, c, true).Running? && Rw.Next(s.inner, c, true).state.pcs[c] != s.inner.pcs[c]
    ensures Rw.Next(s.inner, c, s.pcs[c].exclusive).Running?
    ensures var p, p' := s.inner.pcs[c], Rw.Next(s.inner, c, s.pcs[c].exclusive).state.pcs[c];
      && (p.Outside? ==> p' == if s.pcs[c].exclusive then Rw.WriterSpin else Rw.ReaderSpin)
      && (!p.Outside? ==> Rw.Rank(p') == Rw.Rank(p) - 1)
      && (p.WriterUnwait? <==> p'.WriterInside?) && (p.ReaderConfess? <==> p'.ReaderInside?)
      && (Rw.Rank(p) == 1 ==> p'.Outside?)
  {
    hide Rw.Inv, Rw.Next, Total;
    assert FitsAt(s, c);
    InnerMoves(s.inner, c, s.pcs[c].exclusive);
  }

  /** While somebody is not idle and nobody is doomed, somebody can take a step of its work. */
  lemma SomeoneMoves(s: State, c: nat) returns (d: nat)
    requires Inv(s) && c < |s.pcs| && !s.pcs[c].Idle? && NoneDoomed(s)
    ensures d < |s.pcs| && Next(s, d, Release).Running?
    ensures var s' := Next(s, d, Release).state;
      && Inv(s') && |s'.pcs| == |s.pcs| && s'.maxDepth == s.maxDepth && NoneDoomed(s')
      && Outstanding(s') == Outstanding(s) - 1
  {
    hide Rw.Inv, Rw.Next, Next, Total, Work;
    if exists e :: 0 <= e < |s.pcs| && !s.pcs[e].Idle? && !Spins(s, e) {
      d :| 0 <= d < |s.pcs| && !s.pcs[d].Idle? && !Spins(s, d);
    } else {
      d := FreeInnerAdmits(s, c);
    }
    StepWorks(s, d);
    OthersWait(s, d);
  }

  /** Where all who are not idle spin, the inner lock is free and admits one of them. */
  lemma FreeInnerAdmits(s: State, c: nat) returns (d: nat)
    requires Inv(s) && c < |s.pcs| && !s.pcs[c].Idle?
    requires forall e :: 0 <= e < |s.pcs| ==> s.pcs[e].Idle? || Spins(s, e)
    ensures d < |s.pcs| && !s.pcs[d].Idle?
    ensures Rw.Next(s.inner, d, true).Running? && Rw.Next(s.inner, d, true).state.pcs[d] != s.inner.pcs[d]
  {
    hide Rw.Inv, Rw.Next, Total;
    forall e | 0 <= e < |s.pcs|
      ensures s.inner.pcs[e].Outside? || Rw.Spins(s.inner.pcs[e])
      ensures s.pcs[e].Idle? ==> s.inner.pcs[e].Outside?
    {
      assert FitsAt(s, e);
    }
    d := Rw.FreeLockAdmitsWaiter(s.inner, c);
  }

  /** The step of one CPU leaves the work of the others. */
  lemma OthersWait(s: State, c: nat)
    requires Inv(s) && c < |s.pcs| && NoneDoomed(s) && Next(s, c, Release).Running?
    requires var s' := Next(s, c, Release).state;
      && Shaped(s') && |s'.pcs| == |s.pcs| && s'.maxDepth == s.maxDepth && !Doomed(s', c)
      && Work(s'.pcs[c], s'.inner.pcs[c], s'.nesting[c]) == Work(s.pcs[c], s.inner.pcs[c], s.nesting[c]) - 1
    ensures var s' := Next(s, c, Release).state;
      NoneDoomed(s') && Outstanding(s') == Outstanding(s) - 1
  {
    hide Rw.Inv, Rw.Next, Next, Total, Work, Inv;
    ShapedNow(s);
    var s' := Next(s, c, Release).state;
    forall d | 0 <= d < |s.pcs| && d != c
      ensures !Doomed(s', d) && Works(s')[d] == Works(s)[d]
    {
      StepTouches(s, c, Release, d);
      assert !Doomed(s, d);
    }
    assert Works(s') == Works(s)[c := Works(s)[c] - 1];
    TotalUpdate(Works(s), Itself, c, Works(s)[c] - 1);
  }

  lemma ShapedNow(s: State)
    requires Inv(s)
    ensures Shaped(s)
  {
  }

  /** With no work outstanding the lock is as it was initialized. */
  lemma AllIdle(s: State)
    requires Inv(s) && Outstanding(s) == 0
    ensures s == Initial(|s.pcs|, s.maxDepth)
  {
    forall c | 0 <= c < |s.pcs|
      ensures s.pcs[c] == Idle && s.inner.pcs[c] == Rw.Outside && s.nesting[c] == 0 && s.holder != Cpu(c)
    {
      TotalOfOne(Works(s), Itself, c);
      assert FitsAt(s, c);
    }
    TotalZero(s.inner.pcs, Rw.Waits);
    TotalZero(s.inner.pcs, Rw.Writes);
    TotalZero(s.inner.pcs, Rw.Reads);
    assert s.inner.pcs == Rw.Initial(|s.pcs|).pcs;
    assert s.pcs == Initial(|s.pcs|, s.maxDepth).pcs && s.nesting == Initial(|s.pcs|, s.maxDepth).nesting;
  }

  ghost predicate Schedules(turns: seq<Turn>, cpus: nat) {
    forall i :: 0 <= i < |turns| ==> turns[i].cpu < cpus
  }

  /** No reachable state is stuck: unless some CPU is about to fail the depth limit, a schedule of exactly
      the outstanding steps, with no request but releases, brings every CPU to idle and the lock back
      to its initial state. */
  lemma {:induction false} Drains(s: State) returns (turns: seq<Turn>)
    requires Inv(s) && NoneDoomed(s)
    ensures Schedules(turns, |s.pcs|) && |turns| == Outstanding(s)
    ensures forall turn :: turn in turns ==> turn.request == Release
    ensures Run(s, turns) == Running(Initial(|s.pcs|, s.maxDepth))
    decreases Outstanding(s)
  {
    hide Rw.Inv, Rw.Next, Next, Total, Work, Inv;
    ShapedNow(s);
    if Outstanding(s) == 0 {
      AllIdle(s);
      turns := [];
    } else {
      var c := PositiveMember(Works(s), Itself);
      IdleHasNoWork(s, c);
      var d := SomeoneMoves(s, c);
      var rest := Drains(Next(s, d, Release).state);
      turns := [Turn(d, Release)] + rest;
      assert turns[1..] == rest;
    }
  }

  lemma IdleHasNoWork(s: State, c: nat)
    requires Shaped(s) && c < |s.pcs| && Works(s)[c] > 0
    ensures !s.pcs[c].Idle?
  {
  }

  /** A CPU about to fail the depth limit can do nothing else, whatever the others do. */
  lemma {:induction false} DoomedStays(s: State, turns: seq<Turn>, c: nat)
    requires Inv(s) && Schedules(turns, |s.pcs|) && c < |s.pcs| && Doomed(s, c)
    ensures Run(s, turns).Running? ==>
      Shaped(Run(s, turns).state) && c < |Run(s, turns).state.pcs| && Doomed(Run(s, turns).state, c)
    decreases |turns|
  {
    if turns != [] {
      var d, request := turns[0].cpu, turns[0].request;
      StepKeepsInv(s, d, request);
      if Next(s, d, request).Running? {
        DoomedStep(s, d, request, c);
        DoomedStays(Next(s, d, request).state, turns[1..], c);
      }
    }
  }

  lemma DoomedStep(s: State, d: nat, request: Request, c: nat)
    requires Inv(s) && d < |s.pcs| && c < |s.pcs| && Doomed(s, c) && Next(s, d, request).Running?
    ensures var s' := Next(s, d, request).state;
      Shaped(s') && |s'.pcs| == |s.pcs| && Doomed(s', c)
  {
    hide Rw.Inv, Rw.Next, Total;
    assert FitsAt(s, c);
    if d != c {
      StepTouches(s, d, request, c);
    }
  }

  /** And at most two steps of its own fail the ASSERT. */
  lemma DoomedFails(s: State, c: nat) returns (turns: seq<Turn>)
    requires Inv(s) && c < |s.pcs| && Doomed(s, c)
    ensures Schedules(turns, |s.pcs|) && |turns| <= 2 && Run(s, turns) == TooDeep
  {
    hide Rw.Inv, Rw.Next, Total;
    var turn := Turn(c, Release);
    assert FitsAt(s, c);
    StepKeepsInv(s, c, Release);
    turns := [turn];
    assert turns[1..] == [];
    if s.pcs[c].AskHolder? {
      var s' := Next(s, c, Release).state;
      StepKeepsInv(s', c, Release);
      assert Run(s', turns) == TooDeep;
      turns := [turn, turn];
      assert turns[1..] == [turn];
    }
  }

  /** So from a reachable state the lock can be drained iff no CPU is about to fail the depth limit;
      and else it can be made to fail. */
  lemma DrainsUnlessTooDeep(s: State)
    requires Inv(s)
    ensures (exists turns :: Schedules(turns, |s.pcs|) && Run(s, turns) == Running(Initial(|s.pcs|, s.maxDepth))) <==> NoneDoomed(s)
    ensures !NoneDoomed(s) ==> exists turns :: Schedules(turns, |s.pcs|) && Run(s, turns) == TooDeep
  {
    hide Rw.Inv, Rw.Next, Next, Total, Work, Inv, Run;
    ShapedNow(s);
    if NoneDoomed(s) {
      var turns := Drains(s);
    } else {
      var c: nat :| c < |s.pcs| && Doomed(s, c);
      var failing := DoomedFails(s, c);
      forall turns | Schedules(turns, |s.pcs|)
        ensures Run(s, turns) != Running(Initial(|s.pcs|, s.maxDepth))
      {
        DoomedStays(s, turns, c);
      }
    }
  }

  // ---------------------------------------------------------------- what the calls were

  /** What a CPU has asked for, read off the turns alone: the call it is in, if it is in one, and its
      completed acquires, less those it has called the release for. */
  datatype Book = Book(call: Request, exclusive: nat, shared: bool)

  /** Not inside any of the two functions. */
  predicate Resting(pc: Pc) {
    pc.Idle? || pc.HeldExclusive? || pc.HeldShared?
  }

  /** The book of a CPU after a step of its own with this request. A call begins where the CPU was
      resting, and returns where it rests again; what a CPU inside for reading calls is a release. */
  function Entered(b: Book, pc: Pc, pc': Pc, request: Request): Book {
    if Resting(pc) && !Resting(pc') then
      if pc.HeldShared? then Book(Release, b.exclusive, false)
      else if request == Release then Book(Release, if b.exclusive > 0 then b.exclusive - 1 else 0, b.shared)
      else b.(call := request)
    else if !Resting(pc) && Resting(pc') then
      match b.call
      case AcquireExclusive => b.(exclusive := b.exclusive + 1)
      case AcquireShared => b.(shared := true)
      case Release => b
    else b
  }

  /** Where a CPU rests, its next step begins the call it asks for, if it can: idle, it has nothing to
      release, and a writer does not become a reader. */
  lemma CallsBegin(s: State, c: nat, request: Request)
    requires Shaped(s) && c < |s.pcs| && Resting(s.pcs[c])
    ensures Next(s, c, request).Running?
    ensures Resting(Next(s, c, request).state.pcs[c]) <==>
      (s.pcs[c].Idle? && request == Release) || (s.pcs[c].HeldExclusive? && request == AcquireShared)
  {
  }

  /** The books after a run. */
  function BooksAfter(s: State, books: seq<Book>, turns: seq<Turn>): (r: seq<Book>)
    requires Shaped(s) && |books| == |s.pcs| && forall i :: 0 <= i < |turns| ==> turns[i].cpu < |s.pcs|
    ensures |r| == |books|
    decreases |turns|
  {
    if turns == [] then books
    else
      var c := turns[0].cpu;
      match Next(s, c, turns[0].request)
      case Running(s') => BooksAfter(s', books[c := Entered(books[c], s.pcs[c], s'.pcs[c], turns[0].request)], turns[1..])
      case _ => books
  }

  /** Where in the code a CPU can be that has made this call. */
  predicate Serves(pc: Pc, b: Book, nest: nat) {
    && b.exclusive == nest
    && (b.shared <==> pc.HeldShared?)
    && match pc
       case Idle => true
       case HeldExclusive => true
       case HeldShared => true
       case AskHolder => b.call == AcquireExclusive
       case CheckDepth => b.call == AcquireExclusive
       case BumpDepth => b.call == AcquireExclusive
       case SetDepth => b.call == AcquireExclusive
       case SetHolder => b.call == AcquireExclusive
       case InnerAcquire(exclusive) => b.call == if exclusive then AcquireExclusive else AcquireShared
       case CheckHolder(exclusive) => b.call == if exclusive then AcquireExclusive else AcquireShared
       case CheckNoDepth(exclusive) => b.call == if exclusive then AcquireExclusive else AcquireShared
       case _ => b.call == Release
  }

  ghost predicate Booked(s: State, books: seq<Book>)
    requires Shaped(s)
  {
    |books| == |s.pcs| && forall c :: 0 <= c < |s.pcs| ==> Serves(s.pcs[c], books[c], s.nesting[c])
  }

  lemma StepServes(s: State, c: nat, request: Request, b: Book)
    requires Inv(s) && c < |s.pcs| && Next(s, c, request).Running? && Serves(s.pcs[c], b, s.nesting[c])
    ensures var s' := Next(s, c, request).state;
      Serves(s'.pcs[c], Entered(b, s.pcs[c], s'.pcs[c], request), s'.nesting[c])
  {
    hide Rw.Inv, Rw.Next, Total;
    assert FitsAt(s, c);
    if s.pcs[c].InnerAcquire? || s.pcs[c].InnerRelease? {
      InnerStepGoes(s, c, request);
      hide Next;
    }
  }

  lemma InnerStepGoes(s: State, c: nat, request: Request)
    requires Shaped(s) && c < |s.pcs| && (s.pcs[c].InnerAcquire? || s.pcs[c].InnerRelease?) && Next(s, c, request).Running?
    ensures var s' := Next(s, c, request).state;
      && s'.nesting == s.nesting
      && (s'.pcs[c] == s.pcs[c] || s'.pcs[c] == if s.pcs[c].InnerAcquire? then CheckHolder(s.pcs[c].exclusive) else Idle)
  {
    hide Rw.Next;
  }

  lemma {:induction false} RunKeepsBooks(s: State, books: seq<Book>, turns: seq<Turn>)
    requires Inv(s) && Booked(s, books) && forall i :: 0 <= i < |turns| ==> turns[i].cpu < |s.pcs|
    ensures Run(s, turns).Running? ==>
      Inv(Run(s, turns).state) && |Run(s, turns).state.pcs| == |s.pcs|
      && Booked(Run(s, turns).state, BooksAfter(s, books, turns))
    decreases |turns|
  {
    hide Inv, Next, Serves, Entered;
    ShapedNow(s);
    if turns != [] {
      var c, request := turns[0].cpu, turns[0].request;
      StepKeepsInv(s, c, request);
      if Next(s, c, request).Running? {
        var s' := Next(s, c, request).state;
        var books' := books[c := Entered(books[c], s.pcs[c], s'.pcs[c], request)];
        StepServes(s, c, request, books[c]);
        forall d | 0 <= d < |s.pcs| && d != c
          ensures s'.pcs[d] == s.pcs[d] && s'.nesting[d] == s.nesting[d]
        {
          StepTouches(s, c, request, d);
        }
        RunKeepsBooks(s', books', turns[1..]);
      }
    }
  }

  function NoBooks(cpus: nat): (r: seq<Book>)
    ensures |r| == cpus
  {
    seq(cpus, _ => Book(Release, 0, false))
  }

  /** Every call gets what it asked for, over any run from initialization: a CPU that has completed an
      exclusive acquire it has not released is the holder and inside for writing, and no other CPU
      has a completed acquire of either kind; one that has completed a shared acquire is inside for
      reading, and nobody is inside for writing. */
  lemma CallsGetWhatTheyAsk(cpus: nat, recursivityDepth: Byte, turns: seq<Turn>, c: nat)
    requires c < cpus <= Rw.MAX_CPUS && Schedules(turns, cpus) && Run(Initial(cpus, recursivityDepth), turns).Running?
    ensures var s := Run(Initial(cpus, recursivityDepth), turns).state;
            var books := BooksAfter(Initial(cpus, recursivityDepth), NoBooks(cpus), turns);
      && Shaped(s) && |s.pcs| == cpus
      && books[c].exclusive <= (if recursivityDepth == 0 then 2 else recursivityDepth)
      && (books[c].exclusive > 0 ==>
            && s.holder == Cpu(c) && s.inner.pcs[c].WriterInside? && !books[c].shared
            && forall d :: 0 <= d < cpus && d != c ==> books[d].exclusive == 0 && !books[d].shared)
      && (books[c].shared ==>
            && s.pcs[c].HeldShared? && s.inner.pcs[c].ReaderInside? && s.holder == NoCpu
            && forall d :: 0 <= d < cpus ==> books[d].exclusive == 0 && !Rw.IsWriter(s.inner.pcs[d]))
  {
    var s0 := Initial(cpus, recursivityDepth);
    InvInitially(cpus, recursivityDepth);
    RunKeepsBooks(s0, NoBooks(cpus), turns);
    var s, books := Run(s0, turns).state, BooksAfter(s0, NoBooks(cpus), turns);
    RunKeepsDepth(s0, turns);
    hide Run, BooksAfter, NoBooks;
    BooksMean(s, books, c);
  }

  /** And the depth limit fails exactly where one CPU acquires once more than it may. */
  lemma FailsOnlyBeyondDepth(cpus: nat, recursivityDepth: Byte, turns: seq<Turn>, c: nat, request: Request)
    requires c < cpus <= Rw.MAX_CPUS && Schedules(turns, cpus) && Run(Initial(cpus, recursivityDepth), turns).Running?
    ensures var s := Run(Initial(cpus, recursivityDepth), turns).state;
            var books := BooksAfter(Initial(cpus, recursivityDepth), NoBooks(cpus), turns);
      && Shaped(s) && |s.pcs| == cpus
      && (Next(s, c, request) == TooDeep <==>
            && s.pcs[c].CheckDepth? && books[c].call == AcquireExclusive
            && books[c].exclusive == if recursivityDepth == 0 then 2 else recursivityDepth)
  {
    var s0 := Initial(cpus, recursivityDepth);
    InvInitially(cpus, recursivityDepth);
    RunKeepsBooks(s0, NoBooks(cpus), turns);
    RunKeepsDepth(s0, turns);
    var s, books := Run(s0, turns).state, BooksAfter(s0, NoBooks(cpus), turns);
    hide Run, BooksAfter, NoBooks, Next, Inv;
    ShapedNow(s);
    StepKeepsInv(s, c, request);
    assert Serves(s.pcs[c], books[c], s.nesting[c]);
  }

  lemma {:induction false} RunKeepsDepth(s: State, turns: seq<Turn>)
    requires Inv(s) && Schedules(turns, |s.pcs|)
    ensures Run(s, turns).Running? ==> Run(s, turns).state.maxDepth == s.maxDepth
    decreases |turns|
  {
    if turns != [] {
      StepKeepsInv(s, turns[0].cpu, turns[0].request);
      StepFitsOwn(s, turns[0].cpu, turns[0].request);
      hide Next, Inv;
      if Next(s, turns[0].cpu, turns[0].request).Running? {
        RunKeepsDepth(Next(s, turns[0].cpu, turns[0].request).state, turns[1..]);
      }
    }
  }

  lemma BooksMean(s: State, books: seq<Book>, c: nat)
    requires Inv(s) && Booked(s, books) && c < |s.pcs|
    ensures books[c].exclusive <= s.maxDepth
    ensures books[c].exclusive > 0 ==>
      && s.holder == Cpu(c) && s.inner.pcs[c].WriterInside? && !books[c].shared
      && forall d :: 0 <= d < |s.pcs| && d != c ==> books[d].exclusive == 0 && !books[d].shared
    ensures books[c].shared ==>
      && s.pcs[c].HeldShared? && s.inner.pcs[c].ReaderInside? && s.holder == NoCpu
      && forall d :: 0 <= d < |s.pcs| ==> books[d].exclusive == 0 && !Rw.IsWriter(s.inner.pcs[d])
  {
    hide Rw.Inv, Total;
    assert FitsAt(s, c) && Serves(s.pcs[c], books[c], s.nesting[c]);
    Rw.InvIsExclusive(s.inner);
    if books[c].shared {
      FreshAcquireSeesNoHolder(s, c);
    }
    forall d | 0 <= d < |s.pcs|
      ensures FitsAt(s, d) && Serves(s.pcs[d], books[d], s.nesting[d])
    {
    }
  }

  // ---------------------------------------------------------------- readers share

  /** CPUs 0 to `k - 1` are inside for reading, the others idle. */
  function Readers(cpus: nat, k: nat, maxDepth: Byte): State {
    State(Rw.Crowded(cpus, k), NoCpu, 0, maxDepth, seq(cpus, i => if i < k then HeldShared else Idle), seq(cpus, _ => 0))
  }

  /** One shared acquire, step by step. */
  function SharedTurns(c: nat): seq<Turn> {
    seq(8, _ => Turn(c, AcquireShared))
  }

  function AllSharedTurns(k: nat): (r: seq<Turn>)
    ensures Schedules(r, k)
  {
    if k == 0 then [] else AllSharedTurns(k - 1) + SharedTurns(k - 1)
  }

  lemma RunOne(s: State, turns: seq<Turn>)
    requires Shaped(s) && turns != [] && Schedules(turns, |s.pcs|) && Next(s, turns[0].cpu, turns[0].request).Running?
    ensures Run(s, turns) == Run(Next(s, turns[0].cpu, turns[0].request).state, turns[1..])
  {
  }

  lemma {:induction false} RunAppend(s: State, xs: seq<Turn>, ys: seq<Turn>)
    requires Shaped(s) && Schedules(xs, |s.pcs|) && Schedules(ys, |s.pcs|) && Run(s, xs).Running?
    ensures Shaped(Run(s, xs).state) && |Run(s, xs).state.pcs| == |s.pcs| && Schedules(xs + ys, |s.pcs|)
    ensures Run(s, xs + ys) == Run(Run(s, xs).state, ys)
    decreases |xs|
  {
    hide Next;
    if xs == [] {
      assert xs + ys == ys;
    } else {
      RunAppend(Next(s, xs[0].cpu, xs[0].request).state, xs[1..], ys);
      assert (xs + ys)[1..] == xs[1..] + ys;
    }
  }

  /** The lock words and the place of the joining CPU, the rest as in `s`. */
  function Joining(s: State, k: nat, lock: Rw.Lock, p: Rw.Pc, pc: Pc): State
    requires Shaped(s) && k < |s.pcs|
  {
    s.(inner := Rw.State(lock, s.inner.pcs[k := p]), pcs := s.pcs[k := pc])
  }

  lemma JoiningNext(s: State, k: nat, lock: Rw.Lock, p: Rw.Pc, pc: Pc, lock': Rw.Lock, p': Rw.Pc, pc': Pc)
    requires Shaped(s) && k < |s.pcs| && s.holder == NoCpu && s.depth == 0
    requires
      || (pc.Idle? && pc' == InnerAcquire(false) && lock' == lock && p' == p)
      || (pc == InnerAcquire(false) && p.Outside? && p'.ReaderSpin? && lock' == lock && pc' == pc)
      || (pc == InnerAcquire(false) && p.ReaderSpin? && p'.ReaderCount? && pc' == pc
          && lock.waitingWriters == lock.activeWriter == 0 && lock' == lock.(activeWriter := 1))
      || (pc == InnerAcquire(false) && p.ReaderCount? && p'.ReaderCheck? && pc' == pc
          && lock' == lock.(activeReaders := (lock.activeReaders + 1) % 0x1_0000))
      || (pc == InnerAcquire(false) && p.ReaderCheck? && p'.ReaderConfess? && pc' == pc && lock.activeWriter == 1 && lock' == lock)
      || (pc == InnerAcquire(false) && p.ReaderConfess? && p'.ReaderInside? && pc' == CheckHolder(false)
          && lock.activeWriter == 1 && lock' == lock.(activeWriter := 0))
      || (pc == CheckHolder(false) && pc' == CheckNoDepth(false) && lock' == lock && p' == p)
      || (pc == CheckNoDepth(false) && pc' == HeldShared && lock' == lock && p' == p)
    ensures Next(Joining(s, k, lock, p, pc), k, AcquireShared) == Running(Joining(s, k, lock', p', pc'))
  {
    var t := Joining(s, k, lock, p, pc);
    assert t.inner.pcs[k := p'] == s.inner.pcs[k := p'] && t.pcs[k := pc'] == s.pcs[k := pc'];
    assert t.pcs[k := pc] == t.pcs && t.inner.pcs[k := p] == t.inner.pcs;
  }

  /** The states that reader `k` goes through. */
  function JoinPath(s: State, k: nat): (r: seq<State>)
    requires Shaped(s) && k < |s.pcs|
    ensures |r| == 9 && forall i :: 0 <= i < 9 ==> Shaped(r[i]) && |r[i].pcs| == |s.pcs|
  {
    var l := s.inner.lock;
    var l1, n := l.(activeWriter := 1), (l.activeReaders + 1) % 0x1_0000;
    var l2, l3 := l1.(activeReaders := n), l.(activeWriter := 0, activeReaders := n);
    [Joining(s, k, l, Rw.Outside, Idle),
     Joining(s, k, l, Rw.Outside, InnerAcquire(false)),
     Joining(s, k, l, Rw.ReaderSpin, InnerAcquire(false)),
     Joining(s, k, l1, Rw.ReaderCount, InnerAcquire(false)),
     Joining(s, k, l2, Rw.ReaderCheck, InnerAcquire(false)),
     Joining(s, k, l2, Rw.ReaderConfess, InnerAcquire(false)),
     Joining(s, k, l3, Rw.ReaderInside, CheckHolder(false)),
     Joining(s, k, l3, Rw.ReaderInside, CheckNoDepth(false)),
     Joining(s, k, l3, Rw.ReaderInside, HeldShared)]
  }

  lemma JoinPathSteps(s: State, k: nat, i: nat)
    requires Shaped(s) && k < |s.pcs| && s.holder == NoCpu && s.depth == 0 && i < 8
    requires s.inner.lock.waitingWriters == s.inner.lock.activeWriter == 0
    ensures Next(JoinPath(s, k)[i], k, AcquireShared) == Running(JoinPath(s, k)[i + 1])
  {
    hide Next, Joining;
    var l := s.inner.lock;
    var l1, n := l.(activeWriter := 1), (l.activeReaders + 1) % 0x1_0000;
    var l2, l3 := l1.(activeReaders := n), l.(activeWriter := 0, activeReaders := n);
    match i {
      case 0 => JoiningNext(s, k, l, Rw.Outside, Idle, l, Rw.Outside, InnerAcquire(false));
      case 1 => JoiningNext(s, k, l, Rw.Outside, InnerAcquire(false), l, Rw.ReaderSpin, InnerAcquire(false));
      case 2 => JoiningNext(s, k, l, Rw.ReaderSpin, InnerAcquire(false), l1, Rw.ReaderCount, InnerAcquire(false));
      case 3 => JoiningNext(s, k, l1, Rw.ReaderCount, InnerAcquire(false), l2, Rw.ReaderCheck, InnerAcquire(false));
      case 4 => JoiningNext(s, k, l2, Rw.ReaderCheck, InnerAcquire(false), l2, Rw.ReaderConfess, InnerAcquire(false));
      case 5 => JoiningNext(s, k, l2, Rw.ReaderConfess, InnerAcquire(false), l3, Rw.ReaderInside, CheckHolder(false));
      case 6 => JoiningNext(s, k, l3, Rw.ReaderInside, CheckHolder(false), l3, Rw.ReaderInside, CheckNoDepth(false));
      case _ => JoiningNext(s, k, l3, Rw.ReaderInside, CheckNoDepth(false), l3, Rw.ReaderInside, HeldShared);
    }
  }

  /** A run of one CPU along a path of states. */
  lemma {:induction false} RunPath(path: seq<State>, t: Turn, turns: seq<Turn>)
    requires |path| == |turns| + 1 && forall i :: 0 <= i < |turns| ==> turns[i] == t
    requires forall i :: 0 <= i < |path| ==> Shaped(path[i]) && t.cpu < |path[i].pcs|
    requires forall i :: 0 <= i < |turns| ==> Next(path[i], t.cpu, t.request) == Running(path[i + 1])
    ensures Run(path[0], turns) == Running(path[|turns|])
    decreases |turns|
  {
    hide Next;
    if turns != [] {
      RunPath(path[1..], t, turns[1..]);
    }
  }

  lemma OneMoreReader(cpus: nat, k: nat, maxDepth: Byte)
    requires k < cpus
    ensures Run(Readers(cpus, k, maxDepth), SharedTurns(k)) == Running(Readers(cpus, k + 1, maxDepth))
  {
    hide Next, Readers, Joining, Run;
    var s := Readers(cpus, k, maxDepth);
    ReadersJoined(cpus, k, maxDepth);
    forall i | 0 <= i < 8
      ensures Next(JoinPath(s, k)[i], k, AcquireShared) == Running(JoinPath(s, k)[i + 1])
    {
      JoinPathSteps(s, k, i);
    }
    NextCrowd(k);
    RunPath(JoinPath(s, k), Turn(k, AcquireShared), SharedTurns(k));
  }

  lemma NextCrowd(k: nat)
    ensures (k % 0x1_0000 + 1) % 0x1_0000 == (k + 1) % 0x1_0000
  {
  }

  lemma ReadersJoined(cpus: nat, k: nat, maxDepth: Byte)
    requires k < cpus
    ensures var s := Readers(cpus, k, maxDepth);
      && Shaped(s) && |s.pcs| == cpus && s.holder == NoCpu && s.depth == 0
      && s.inner.lock == Rw.Lock(0, 0, k % 0x1_0000)
      && Joining(s, k, s.inner.lock, Rw.Outside, Idle) == s
      && Joining(s, k, Rw.Lock(0, 0, (k + 1) % 0x1_0000), Rw.ReaderInside, HeldShared) == Readers(cpus, k + 1, maxDepth)
  {
    var s, s' := Readers(cpus, k, maxDepth), Readers(cpus, k + 1, maxDepth);
    assert s.inner.pcs[k := Rw.Outside] == s.inner.pcs && s.pcs[k := Idle] == s.pcs;
    assert s.inner.pcs[k := Rw.ReaderInside] == s'.inner.pcs && s.pcs[k := HeldShared] == s'.pcs;
  }

  /** Readers share the lock: any number of CPUs that call the shared acquire one after the other are
      all inside together. */
  lemma {:induction false} ReadersShare(cpus: nat, recursivityDepth: Byte, k: nat)
    requires k <= cpus
    ensures Schedules(AllSharedTurns(k), cpus)
    ensures Run(Initial(cpus, recursivityDepth), AllSharedTurns(k)) ==
            Running(Readers(cpus, k, Initial(cpus, recursivityDepth).maxDepth))
  {
    hide Next, Run, SharedTurns;
    var maxDepth := Initial(cpus, recursivityDepth).maxDepth;
    if k == 0 {
      assert Readers(cpus, 0, maxDepth) == Initial(cpus, recursivityDepth);
      RunNone(Initial(cpus, recursivityDepth));
    } else {
      ReadersShare(cpus, recursivityDepth, k - 1);
      OneMoreReader(cpus, k - 1, maxDepth);
      SharedTurnsAre(k - 1);
      RunAppend(Initial(cpus, recursivityDepth), AllSharedTurns(k - 1), SharedTurns(k - 1));
    }
  }

  lemma RunNone(s: State)
    requires Shaped(s)
    ensures Run(s, []) == Running(s)
  {
  }

  lemma SharedTurnsAre(c: nat)
    ensures Schedules(SharedTurns(c), c + 1)
  {
  }

  // ---------------------------------------------------------------- the lock in memory

  datatype StepResult = Stepped | DepthLimit | Failed

  class RecRwLock {
    const inner: Rw.RwLock
    const maxRecursivityDepth: Byte
    var currentRecursivityDepth: Byte
    var holder: Holder
    var pcs: seq<Pc>
    ghost var nesting: seq<nat>

    ghost function Value(): State
      reads this, inner
    {
      State(inner.Value(), holder, currentRecursivityDepth, maxRecursivityDepth, pcs, nesting)
    }

    constructor (cpus: nat, recursivityDepth: Byte)
      ensures Value() == Initial(cpus, recursivityDepth)
      ensures fresh(inner)
    {
      inner := new Rw.RwLock(cpus);
      maxRecursivityDepth := if recursivityDepth == 0 then DEFAULT_MAX_DEPTH else recursivityDepth;
      currentRecursivityDepth := 0;
      holder := NoCpu;
      pcs := seq(cpus, _ => Idle);
      nesting := seq(cpus, _ => 0);
    }

    /** CPU `c` executes its next step; in a reachable state no ASSERT but the depth limit fails. */
    method Step(c: nat, request: Request) returns (r: StepResult)
      requires Inv(Value()) && c < |pcs|
      modifies this, inner
      ensures match Next(old(Value()), c, request)
        case Running(s) => r == Stepped && Value() == s
        case TooDeep => r == DepthLimit && Value() == old(Value())
        case AssertFailed => r == Failed
      ensures r != Failed
      ensures r == Stepped ==> Inv(Value())
    {
      StepKeepsInv(Value(), c, request);
      assert |nesting| == |pcs| && |inner.pcs| == |pcs|;
      hide Inv, Next;
      r := Advance(c, request);
    }

    /** One step in the inner lock's code, which is left for `after` once it is `done`. */
    method AdvanceInner(c: nat, exclusive: bool, done: Rw.Pc, after: Pc) returns (r: StepResult)
      requires Shaped(Value()) && c < |pcs|
      modifies `pcs, inner
      ensures match InnerStep(old(Value()), c, exclusive, done, after)
        case Running(s) => r == Stepped && Value() == s
        case TooDeep => false
        case AssertFailed => r == Failed
    {
      hide Rw.Next;
      var ok := inner.Step(c, exclusive);
      if !ok {
        return Failed;
      }
      if inner.pcs[c] == done {
        pcs := pcs[c := after];
      }
      r := Stepped;
    }

    method Advance(c: nat, request: Request) returns (r: StepResult)
      requires Shaped(Value()) && c < |pcs|
      modifies this, inner
      ensures match Next(old(Value()), c, request)
        case Running(s) => r == Stepped && Value() == s
        case TooDeep => r == DepthLimit && Value() == old(Value())
        case AssertFailed => r == Failed
    {
      hide InnerStep;
      r := Stepped;
      match pcs[c] {
        case Idle =>
          if request == AcquireExclusive {
            pcs := pcs[c := AskHolder];
          } else if request == AcquireShared {
            pcs := pcs[c := InnerAcquire(false)];
          }
        case AskHolder =>
          pcs := pcs[c := if holder == Cpu(c) then CheckDepth else InnerAcquire(true)];
        case CheckDepth =>
          if currentRecursivityDepth < maxRecursivityDepth {
            pcs := pcs[c := BumpDepth];
          } else {
            r := DepthLimit;
          }
        case BumpDepth =>
          currentRecursivityDepth := (currentRecursivityDepth + 1) % BYTE_RANGE;
          pcs := pcs[c := HeldExclusive];
          nesting := nesting[c := nesting[c] + 1];
        case InnerAcquire(exclusive) =>
          r := AdvanceInner(c, exclusive, if exclusive then Rw.WriterInside else Rw.ReaderInside, CheckHolder(exclusive));
        case CheckHolder(exclusive) =>
          if holder != NoCpu {
            return Failed;
          }
          pcs := pcs[c := CheckNoDepth(exclusive)];
        case CheckNoDepth(exclusive) =>
          if currentRecursivityDepth != 0 {
            return Failed;
          }
          pcs := pcs[c := if exclusive then SetDepth else HeldShared];
        case SetDepth =>
          currentRecursivityDepth := 1;
          pcs := pcs[c := SetHolder];
        case SetHolder =>
          holder := Cpu(c);
          pcs := pcs[c := HeldExclusive];
          nesting := nesting[c := nesting[c] + 1];
        case HeldExclusive =>
          if request == AcquireExclusive {
            pcs := pcs[c := AskHolder];
          } else if request == Release {
            pcs := pcs[c := ReleaseCheck];
            nesting := if nesting[c] > 0 then nesting[c := nesting[c] - 1] else nesting;
          }
        case HeldShared =>
          pcs := pcs[c := TestDepth(false)];
        case ReleaseCheck =>
          if holder != Cpu(c) {
            return Failed;
          }
          pcs := pcs[c := DropDepth];
        case DropDepth =>
          currentRecursivityDepth := (currentRecursivityDepth + BYTE_RANGE - 1) % BYTE_RANGE;
          pcs := pcs[c := TestDepth(true)];
        case TestDepth(exclusive) =>
          pcs := pcs[c := if currentRecursivityDepth == 0 || !exclusive then ClearHolder(exclusive) else HeldExclusive];
        case ClearHolder(exclusive) =>
          holder := NoCpu;
          pcs := pcs[c := InnerRelease(exclusive)];
        case InnerRelease(exclusive) =>
          r := AdvanceInner(c, exclusive, Rw.Outside, Idle);
      }
    }
  }
}
