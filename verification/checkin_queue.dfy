/** The check-in queue: threads mark their arrival in the first free slot they meet, and waiters
    scan the slots until enough of them are taken. One compare-exchange per step, any number
    of threads, any interleaving.
 */
module CheckinQueue {
  import opened Counting

  /** What a thread is doing. `i` is its loop variable. A thread is Outside once its scan has left the
      array of slots; the model follows it no further. */
  datatype Thread =
    | Elsewhere
    | Marking(i: nat)
    | Waiting(wanted: nat, i: nat, green: bool)
    | Outside

  /** What a thread that is elsewhere calls next. */
  datatype Call = Mark | WaitOn(waitAll: bool, numberOfCheckins: nat)

  datatype Turn = Turn(thread: nat, call: Call)

  /** The slots and the threads; and, for stating the properties, how many MarkPresence calls were
      made, how many took a slot and how many went away without one. */
  datatype State = State(slots: seq<bool>, threads: seq<Thread>, calls: nat, marked: nat, missed: nat)

  predicate Allowed(s: State, turn: Turn) {
    turn.thread < |s.threads|
  }

  function Next(s: State, turn: Turn): (r: State)
    requires Allowed(s, turn)
    ensures |r.threads| == |s.threads| && |r.slots| == |s.slots|
  {
    var t := turn.thread;
    match s.threads[t]
    case Elsewhere =>
      (match turn.call
       case Mark => s.(threads := s.threads[t := Marking(0)], calls := s.calls + 1)
       case WaitOn(waitAll, n) => s.(threads := s.threads[t := Waiting(if waitAll then |s.slots| else n, 0, true)]))
    case Marking(i) =>
      if i >= |s.slots| then s.(threads := s.threads[t := Elsewhere], missed := s.missed + 1)
      else if !s.slots[i] then
        s.(slots := s.slots[i := true], threads := s.threads[t := Elsewhere], marked := s.marked + 1)
      else s.(threads := s.threads[t := Marking(i + 1)])
    case Waiting(wanted, i, green) =>
      if i < wanted && i >= |s.slots| then s.(threads := s.threads[t := Outside])
      else if i < wanted then s.(threads := s.threads[t := Waiting(wanted, i + 1, green && s.slots[i])])
      else if green then s.(threads := s.threads[t := Elsewhere])
      else s.(threads := s.threads[t := Waiting(wanted, 0, true)])
    case Outside => s
  }

  function Initial(numberOfThreads: nat, threads: nat): State {
    State(seq(numberOfThreads, _ => false), seq(threads, _ => Elsewhere), 0, 0, 0)
  }

  function InCall(t: Thread): nat {
    if t.Marking? then 1 else 0
  }

  predicate ThreadOk(slots: seq<bool>, t: Thread) {
    match t
    case Elsewhere => true
    case Marking(i) => i <= |slots| && forall j :: 0 <= j < i ==> slots[j]
    case Waiting(wanted, i, green) =>
      i <= wanted && i <= |slots| && (green ==> forall j :: 0 <= j < i ==> slots[j])
    case Outside => true
  }

  /** The taken slots are a prefix as long as the number of successful marks; each thread has
      seen what its position says; every call is a success, a miss, or still going on; and misses
      only happen once all slots are taken. */
  ghost predicate Inv(s: State) {
    && s.marked <= |s.slots|
    && (forall i :: 0 <= i < |s.slots| ==> (s.slots[i] <==> i < s.marked))
    && (forall t :: 0 <= t < |s.threads| ==> ThreadOk(s.slots, s.threads[t]))
    && s.calls == s.marked + s.missed + Total(s.threads, InCall)
    && (s.missed > 0 ==> s.marked == |s.slots|)
  }

  lemma InitialIsInv(numberOfThreads: nat, threads: nat)
    ensures Inv(Initial(numberOfThreads, threads))
  {
    TotalZero(Initial(numberOfThreads, threads).threads, InCall);
  }

  /** A marking thread cannot have run past the first free slot. */
  lemma MarkingSeesPrefix(s: State, t: nat)
    requires Inv(s) && t < |s.threads| && s.threads[t].Marking?
    ensures s.threads[t].i <= s.marked
  {
    assert ThreadOk(s.slots, s.threads[t]);
    assert s.marked < |s.slots| ==> !s.slots[s.marked];
  }

  lemma NextKeepsInv(s: State, turn: Turn)
    requires Inv(s) && Allowed(s, turn)
    ensures Inv(Next(s, turn))
  {
    var s', t := Next(s, turn), turn.thread;
    TotalUpdate(s.threads, InCall, t, s'.threads[t]);
    assert ThreadOk(s.slots, s.threads[t]);
    if s.threads[t].Marking? {
      MarkingSeesPrefix(s, t);
    }
    forall u | 0 <= u < |s'.threads|
      ensures ThreadOk(s'.slots, s'.threads[u])
    {
      assert ThreadOk(s.slots, s.threads[u]);
    }
  }

  predicate AllAllowed(s: State, turns: seq<Turn>) {
    forall turn :: turn in turns ==> Allowed(s, turn)
  }

  function Run(s: State, turns: seq<Turn>): (r: State)
    requires AllAllowed(s, turns)
    ensures |r.threads| == |s.threads| && |r.slots| == |s.slots|
    decreases |turns|
  {
    if turns == [] then s
    else
      assert turns[0] in turns && forall turn :: turn in turns[1..] ==> turn in turns;
      Run(Next(s, turns[0]), turns[1..])
  }

  /** The invariant holds in every reachable state. */
  lemma {:induction false} RunKeepsInv(s: State, turns: seq<Turn>)
    requires Inv(s) && AllAllowed(s, turns)
    ensures Inv(Run(s, turns))
    decreases |turns|
  {
    if turns != [] {
      assert turns[0] in turns && forall turn :: turn in turns[1..] ==> turn in turns;
      NextKeepsInv(s, turns[0]);
      RunKeepsInv(Next(s, turns[0]), turns[1..]);
    }
  }

  /** A waiter's return: the step by which it gets out of its loop. */
  predicate Returns(s: State, turn: Turn) {
    && Allowed(s, turn)
    && s.threads[turn.thread].Waiting?
    && Next(s, turn).threads[turn.thread].Elsewhere?
  }

  /** Nobody is let through early: in any run, a wait for `n` returns only after `n` threads have
      checked in. */
  lemma ReturnsOnlyAfterMarks(numberOfThreads: nat, threads: nat, turns: seq<Turn>, turn: Turn)
    requires AllAllowed(Initial(numberOfThreads, threads), turns)
    requires Returns(Run(Initial(numberOfThreads, threads), turns), turn)
    ensures var s := Run(Initial(numberOfThreads, threads), turns);
      s.threads[turn.thread].wanted <= s.marked
  {
    var s := Run(Initial(numberOfThreads, threads), turns);
    InitialIsInv(numberOfThreads, threads);
    RunKeepsInv(Initial(numberOfThreads, threads), turns);
    var w := s.threads[turn.thread];
    assert ThreadOk(s.slots, w);
    if w.wanted > 0 {
      assert s.slots[w.wanted - 1];
    }
  }

  /** Once no call is going on, the misses are exactly the calls beyond the number of slots; so
      with at most that many calls every one of them took a slot. */
  lemma MissesAreTheExcess(numberOfThreads: nat, threads: nat, turns: seq<Turn>)
    requires AllAllowed(Initial(numberOfThreads, threads), turns)
    ensures var s := Run(Initial(numberOfThreads, threads), turns);
      && (s.calls <= numberOfThreads ==> s.missed == 0)
      && (Total(s.threads, InCall) == 0 ==>
            s.missed == (if s.calls <= numberOfThreads then 0 else s.calls - numberOfThreads))
  {
    var s := Run(Initial(numberOfThreads, threads), turns);
    InitialIsInv(numberOfThreads, threads);
    RunKeepsInv(Initial(numberOfThreads, threads), turns);
  }

  // ---------------------------------------------------------------- progress

  /** A bound on the steps a waiter still has to take once enough threads have checked in. */
  function StepsLeft(t: Thread): nat {
    if t.Waiting? && t.i <= t.wanted then t.wanted - t.i + 1 + (if t.green then 0 else t.wanted + 1) else 0
  }

  /** Once enough threads have checked in, every step of the waiter brings it closer to
      returning, and no step of anybody else sets it back; taken slots stay taken. */
  lemma WaiterGetsThrough(s: State, turn: Turn, w: nat)
    requires Inv(s) && Allowed(s, turn) && w < |s.threads|
    requires s.threads[w].Waiting? && s.threads[w].wanted <= s.marked
    ensures var s' := Next(s, turn);
      && s.marked <= s'.marked
      && (turn.thread == w ==> StepsLeft(s'.threads[w]) < StepsLeft(s.threads[w]))
      && (turn.thread != w ==> s'.threads[w] == s.threads[w])
      && (StepsLeft(s'.threads[w]) == 0 <==> s'.threads[w].Elsewhere?)
  {
    assert ThreadOk(s.slots, s.threads[w]);
  }

  function StepsOf(turns: seq<Turn>, w: nat): nat {
    if turns == [] then 0 else (if turns[0].thread == w then 1 else 0) + StepsOf(turns[1..], w)
  }

  /** So a waiter for whom enough threads have checked in returns in every run in which it takes
      that many steps, whatever the others do meanwhile. */
  lemma {:induction false} WaiterReturns(s: State, turns: seq<Turn>, w: nat) returns (k: nat)
    requires Inv(s) && AllAllowed(s, turns) && w < |s.threads|
    requires s.threads[w].Waiting? && s.threads[w].wanted <= s.marked
    requires StepsLeft(s.threads[w]) <= StepsOf(turns, w)
    ensures k <= |turns| && AllAllowed(s, turns[..k])
    ensures Run(s, turns[..k]).threads[w].Elsewhere?
    decreases |turns|
  {
    assert ThreadOk(s.slots, s.threads[w]);
    var turn, rest := turns[0], turns[1..];
    assert turn in turns && forall u :: u in rest ==> u in turns;
    var s' := Next(s, turn);
    NextKeepsInv(s, turn);
    WaiterGetsThrough(s, turn, w);
    var j := 0;
    if !s'.threads[w].Elsewhere? {
      j := WaiterReturns(s', rest, w);
    }
    k := j + 1;
    assert turns[..k][0] == turn && turns[..k][1..] == rest[..j];
    assert forall u :: u in turns[..k] ==> u in turns;
  }

  // ---------------------------------------------------------------- what the calls get

  lemma {:induction false} RunSnoc(s: State, turns: seq<Turn>, turn: Turn)
    requires AllAllowed(s, turns) && Allowed(s, turn)
    ensures AllAllowed(s, turns + [turn])
    ensures Run(s, turns + [turn]) == Next(Run(s, turns), turn)
    decreases |turns|
  {
    if turns == [] {
      assert (turns + [turn])[1..] == [];
    } else {
      assert turns[0] in turns && forall t :: t in turns[1..] ==> t in turns;
      assert (turns + [turn])[1..] == turns[1..] + [turn];
      RunSnoc(Next(s, turns[0]), turns[1..], turn);
    }
  }

  /** Between the call and the return of a wait, the thread waits for as many as the call says, or has
      left the array. */
  lemma {:induction false} WaitsForItsCall(s: State, turns: seq<Turn>, k: nat, i: nat, w: nat)
    requires AllAllowed(s, turns) && k < i <= |turns| && w < |s.threads|
    requires turns[k].thread == w && turns[k].call.WaitOn? && Run(s, turns[..k]).threads[w].Elsewhere?
    requires forall j :: k < j < i ==> !Run(s, turns[..j]).threads[w].Elsewhere?
    ensures var t := Run(s, turns[..i]).threads[w];
      && (t.Waiting? ==> t.wanted == if turns[k].call.waitAll then |s.slots| else turns[k].call.numberOfCheckins)
      && !t.Marking? && (t.Elsewhere? ==> i > k + 1)
    decreases i
  {
    assert turns[..i] == turns[..i - 1] + [turns[i - 1]] && turns[i - 1] in turns;
    RunSnoc(s, turns[..i - 1], turns[i - 1]);
    if i > k + 1 {
      WaitsForItsCall(s, turns, k, i - 1, w);
    }
  }

  /** Nobody is let through early, in terms of the calls: over any run, when a thread has called for a
      wait and then returns for the first time, as many threads have checked in as it asked for, all of
      them if it asked for all. */
  lemma CallReturnsOnlyAfterMarks(numberOfThreads: nat, threads: nat, turns: seq<Turn>, k: nat, l: nat, w: nat)
    requires AllAllowed(Initial(numberOfThreads, threads), turns) && k <= l < |turns| && w < threads
    requires turns[k].thread == turns[l].thread == w && turns[k].call.WaitOn?
    requires Run(Initial(numberOfThreads, threads), turns[..k]).threads[w].Elsewhere?
    requires forall j :: k < j <= l ==> !Run(Initial(numberOfThreads, threads), turns[..j]).threads[w].Elsewhere?
    requires Run(Initial(numberOfThreads, threads), turns[..l + 1]).threads[w].Elsewhere?
    ensures var marked := Run(Initial(numberOfThreads, threads), turns[..l + 1]).marked;
      marked >= if turns[k].call.waitAll then numberOfThreads else turns[k].call.numberOfCheckins
  {
    var s := Initial(numberOfThreads, threads);
    WaitsForItsCall(s, turns, k, l + 1, w);
    WaitsForItsCall(s, turns, k, l, w);
    assert turns[..l + 1] == turns[..l] + [turns[l]] && turns[l] in turns;
    RunSnoc(s, turns[..l], turns[l]);
    ReturnsOnlyAfterMarks(numberOfThreads, threads, turns[..l], turns[l]);
  }

  /** And a call returns: once as many have checked in as it asks for, it is back after at most that many
      steps and one more, whatever the others do meanwhile. */
  lemma CallReturns(s: State, turns: seq<Turn>, w: nat) returns (k: nat)
    requires Inv(s) && AllAllowed(s, turns) && w < |s.threads| && turns != []
    requires s.threads[w].Elsewhere? && turns[0].thread == w && turns[0].call.WaitOn?
    requires var needed := if turns[0].call.waitAll then |s.slots| else turns[0].call.numberOfCheckins;
      needed <= s.marked && StepsOf(turns[1..], w) > needed
    ensures 1 < k <= |turns| && AllAllowed(s, turns[..k])
    ensures Run(s, turns[..k]).threads[w].Elsewhere?
  {
    var rest := turns[1..];
    assert turns[0] in turns && forall u :: u in rest ==> u in turns;
    var s' := Next(s, turns[0]);
    NextKeepsInv(s, turns[0]);
    var j := WaiterReturns(s', rest, w);
    assert rest[..0] == [];
    k := j + 1;
    assert turns[..k][0] == turns[0] && turns[..k][1..] == rest[..j];
    assert forall u :: u in turns[..k] ==> u in turns;
  }

  /** How often a thread that was elsewhere called MarkPresence. */
  function MarkCalls(s: State, turns: seq<Turn>): nat
    requires AllAllowed(s, turns)
    decreases |turns|
  {
    if turns == [] then 0
    else
      assert turns[0] in turns && forall turn :: turn in turns[1..] ==> turn in turns;
      (if s.threads[turns[0].thread].Elsewhere? && turns[0].call == Mark then 1 else 0)
      + MarkCalls(Next(s, turns[0]), turns[1..])
  }

  lemma {:induction false} CallsAreMarkCalls(s: State, turns: seq<Turn>)
    requires AllAllowed(s, turns)
    ensures Run(s, turns).calls == s.calls + MarkCalls(s, turns)
    decreases |turns|
  {
    if turns != [] {
      assert turns[0] in turns && forall turn :: turn in turns[1..] ==> turn in turns;
      CallsAreMarkCalls(Next(s, turns[0]), turns[1..]);
    }
  }

  /** Over any run in which no MarkPresence is left unfinished, the calls take one slot each as long as
      there are slots. */
  lemma EveryMarkTakesASlot(numberOfThreads: nat, threads: nat, turns: seq<Turn>)
    requires AllAllowed(Initial(numberOfThreads, threads), turns)
    requires forall t :: t in Run(Initial(numberOfThreads, threads), turns).threads ==> !t.Marking?
    ensures var s, calls := Run(Initial(numberOfThreads, threads), turns), MarkCalls(Initial(numberOfThreads, threads), turns);
      && s.marked == (if calls <= numberOfThreads then calls else numberOfThreads)
      && forall i :: 0 <= i < numberOfThreads ==> (s.slots[i] <==> i < calls)
  {
    var s0 := Initial(numberOfThreads, threads);
    var s := Run(s0, turns);
    CallsAreMarkCalls(s0, turns);
    InitialIsInv(numberOfThreads, threads);
    RunKeepsInv(s0, turns);
    TotalZero(s.threads, InCall);
  }

  /** A MarkPresence finishes after at most one step for each slot and one more. */
  lemma {:induction false} MarkReturns(s: State, turns: seq<Turn>, w: nat) returns (k: nat)
    requires Inv(s) && AllAllowed(s, turns) && w < |s.threads| && s.threads[w].Marking?
    requires StepsOf(turns, w) > |s.slots| - s.threads[w].i
    ensures k <= |turns| && AllAllowed(s, turns[..k])
    ensures Run(s, turns[..k]).threads[w].Elsewhere?
    decreases |turns|
  {
    assert ThreadOk(s.slots, s.threads[w]);
    var turn, rest := turns[0], turns[1..];
    assert turn in turns && forall u :: u in rest ==> u in turns;
    var s' := Next(s, turn);
    NextKeepsInv(s, turn);
    var j := 0;
    if !s'.threads[w].Elsewhere? {
      j := MarkReturns(s', rest, w);
    }
    k := j + 1;
    assert turns[..k][0] == turn && turns[..k][1..] == rest[..j];
    assert forall u :: u in turns[..k] ==> u in turns;
  }

  // ---------------------------------------------------------------- waits for more than there are slots

  ghost predicate AllInside(s: State) {
    forall t :: 0 <= t < |s.threads| ==>
      !s.threads[t].Outside? && (s.threads[t].Waiting? ==> s.threads[t].wanted <= |s.slots|)
  }

  /** While no call waits for more threads than there are slots, no scan leaves the array. */
  lemma {:induction false} StaysInside(s: State, turns: seq<Turn>)
    requires AllAllowed(s, turns) && AllInside(s)
    requires forall turn :: turn in turns && turn.call.WaitOn? && !turn.call.waitAll ==>
      turn.call.numberOfCheckins <= |s.slots|
    ensures AllInside(Run(s, turns))
    decreases |turns|
  {
    if turns != [] {
      assert turns[0] in turns && forall turn :: turn in turns[1..] ==> turn in turns;
      StaysInside(Next(s, turns[0]), turns[1..]);
    }
  }

  /** And one that does never returns: whatever the others do, it leaves the array after as many
      steps as it takes to get there. */
  lemma {:induction false} TooLongGoesOutside(s: State, turns: seq<Turn>, w: nat)
    requires Inv(s) && AllAllowed(s, turns) && w < |s.threads|
    requires s.threads[w].Outside? || (s.threads[w].Waiting? && s.threads[w].wanted > |s.slots|)
    ensures var t := Run(s, turns).threads[w];
      && (t.Outside? || (t.Waiting? && t.wanted > |s.slots|))
      && (s.threads[w].Waiting? && StepsOf(turns, w) > |s.slots| - s.threads[w].i ==> t.Outside?)
      && (s.threads[w].Outside? ==> t.Outside?)
    decreases |turns|
  {
    assert ThreadOk(s.slots, s.threads[w]);
    if turns != [] {
      assert turns[0] in turns && forall turn :: turn in turns[1..] ==> turn in turns;
      NextKeepsInv(s, turns[0]);
      TooLongGoesOutside(Next(s, turns[0]), turns[1..], w);
    }
  }

  /** So, from initialization on, nobody leaves the array while no call asks for more than there are
      slots. */
  lemma NoneGoesOutside(numberOfThreads: nat, threads: nat, turns: seq<Turn>)
    requires forall turn :: turn in turns ==> turn.thread < threads
    requires forall turn :: turn in turns && turn.call.WaitOn? && !turn.call.waitAll ==>
      turn.call.numberOfCheckins <= numberOfThreads
    ensures AllAllowed(Initial(numberOfThreads, threads), turns)
    ensures forall t :: 0 <= t < threads ==> !Run(Initial(numberOfThreads, threads), turns).threads[t].Outside?
  {
    StaysInside(Initial(numberOfThreads, threads), turns);
  }

  /** And a call that asks for more has left it once the waiter has taken one step more than there are
      slots, besides the step that makes the call. */
  lemma LongCallGoesOutside(s: State, turns: seq<Turn>, w: nat, numberOfCheckins: nat)
    requires Inv(s) && AllAllowed(s, turns) && w < |s.threads| && s.threads[w].Elsewhere?
    requires turns != [] && turns[0] == Turn(w, WaitOn(false, numberOfCheckins)) && numberOfCheckins > |s.slots|
    requires StepsOf(turns, w) > |s.slots| + 1
    ensures Run(s, turns).threads[w].Outside?
  {
    NextKeepsInv(s, turns[0]);
    assert forall turn :: turn in turns[1..] ==> turn in turns;
    TooLongGoesOutside(Next(s, turns[0]), turns[1..], w);
  }

  // ---------------------------------------------------------------- the queue in memory

  class Queue {
    const slots: array<bool>
    var threads: seq<Thread>
    ghost var calls: nat
    ghost var marked: nat
    ghost var missed: nat

    ghost function Value(): State
      reads this, slots
    {
      State(slots[..], threads, calls, marked, missed)
    }

    /** CheckinQueuePreInit and CheckinQueueInit. */
    constructor (numberOfThreads: nat, threadCount: nat)
      ensures Value() == Initial(numberOfThreads, threadCount) && fresh(slots)
      ensures Inv(Value())
    {
      slots := new bool[numberOfThreads](_ => false);
      threads := seq(threadCount, _ => Elsewhere);
      calls, marked, missed := 0, 0, 0;
      new;
      InitialIsInv(numberOfThreads, threadCount);
      assert slots[..] == seq(numberOfThreads, _ => false);
    }

    /** _InterlockedCompareExchange8: gives the old value. */
    method CompareExchange8(i: nat, exchange: bool, comparand: bool) returns (value: bool)
      requires i < slots.Length
      modifies slots
      ensures value == old(slots[i])
      ensures slots[..] == old(slots[..])[i := if value == comparand then exchange else value]
    {
      value := slots[i];
      if value == comparand {
        slots[i] := exchange;
      }
    }

    /** One thread executes its next step. */
    method Step(turn: Turn)
      requires Allowed(Value(), turn)
      modifies this, slots
      ensures Value() == Next(old(Value()), turn)
      ensures old(Inv(Value())) ==> Inv(Value())
    {
      ghost var before := Value();
      var t := turn.thread;
      match threads[t] {
        case Elsewhere =>
          match turn.call {
            case Mark =>
              threads := threads[t := Marking(0)];
              calls := calls + 1;
            case WaitOn(waitAll, n) =>
              threads := threads[t := Waiting(if waitAll then slots.Length else n, 0, true)];
          }
        case Marking(i) =>
          if i < slots.Length {
            var taken := CompareExchange8(i, true, false);
            if !taken {
              threads := threads[t := Elsewhere];
              marked := marked + 1;
            } else {
              threads := threads[t := Marking(i + 1)];
            }
          } else {
            threads := threads[t := Elsewhere];
            missed := missed + 1;
          }
        case Waiting(wanted, i, green) =>
          if i < wanted && i >= slots.Length {
            threads := threads[t := Outside];
          } else if i < wanted {
            var taken := CompareExchange8(i, true, true);
            threads := threads[t := Waiting(wanted, i + 1, green && taken)];
          } else if green {
            threads := threads[t := Elsewhere];
          } else {
            threads := threads[t := Waiting(wanted, 0, true)];
          }
        case Outside =>
      }
      assert Value().slots == Next(before, turn).slots;
      if Inv(before) {
        NextKeepsInv(before, turn);
      }
    }
  }
}
