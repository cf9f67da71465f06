/** No deadlock: every call of `run`, and `drop`, ends under every scheduler, and `drop` leaves nothing undone. */
module PoolLiveness {
  import opened PoolProtocol
  import opened PoolInvariant
  import opened PoolSafety
  import Sums

  // ---------------------------------------------------------------- a bound on the steps left

  ghost function RankOf(): Phase -> nat {
    (p: Phase) => p.Rank()
  }

  /// How many static workers `StatLoop` still has to try.
  function RoundLeft(size: nat, next: nat, from: nat): int {
    if from < next then next - from else next + size - from
  }

  ghost function PcRank(s: State): int {
    var room := |s.slots|;
    match s.pc
    case StatFirst(_) => |s.stat| + room + 4
    case StatLoop(_, from) => RoundLeft(|s.stat|, s.next, from) + room + 3
    case WantLock(_) => room + 3
    case Holding(_) => room + 2
    case Scan(_, i) => room - i + 1
    case Replacing(_, _) => 1
    case DropDynamic(k) => room - k + |s.stat| + 2
    case DropStatic(k) => |s.stat| - k + 1
    case _ => 0
  }

  /// A step of the submitting thread weighs more than all the steps a worker can take on one action.
  ghost function Measure(s: State): int {
    10 * PcRank(s) + Sums.Sum(RankOf(), s.stat) + Sums.Sum(RankOf(), s.slots)
    + if s.pc.Replacing? then s.pc.spawned.Rank() else 0
  }

  /// Every event but the two that start something new.
  predicate Continues(e: Event) {
    !e.Submit? && !e.BeginDrop?
  }

  lemma MeasureNonNegative(s: State)
    requires Inv(s)
    ensures Measure(s) >= 0
  {}

  lemma MoveLowersRank(s: State, w: Who, m: Move)
    requires CanMove(s, w, m)
    ensures var s' := MoveWorker(s, w, m);
            && Present(s', w) && PhaseOf(s', w).Rank() < PhaseOf(s, w).Rank()
            && s'.stat == (if w.StaticWorker? then s.stat[w.j := PhaseOf(s', w)] else s.stat)
            && s'.slots == (if w.Slot? then s.slots[w.i := PhaseOf(s', w)] else s.slots)
            && s'.pc == (if w.Fresh? then s.pc.(spawned := PhaseOf(s', w)) else s.pc)
            && s'.next == s.next
  {}

  lemma MoveDecreases(s: State, w: Who, m: Move)
    requires CanMove(s, w, m)
    ensures Measure(MoveWorker(s, w, m)) < Measure(s)
  {
    var s' := MoveWorker(s, w, m);
    MoveLowersRank(s, w, m);
    assert PcRank(s') == PcRank(s);
    match w
    case StaticWorker(j) => Sums.Update(RankOf(), s.stat, j, s'.stat[j]);
    case Slot(i) => Sums.Update(RankOf(), s.slots, i, s'.slots[i]);
    case Fresh =>
  }

  lemma NextInCycle(size: nat, x: nat)
    requires x < size
    ensures (x + 1) % size == if x + 1 == size then 0 else x + 1
  {}

  lemma TryStaticDecreases(s: State)
    requires Inv(s) && Enabled(s, TryStatic)
    ensures Measure(Apply(s, TryStatic)) < Measure(s)
  {
    var at := if s.pc.StatFirst? then s.next else s.pc.from;
    NextInCycle(|s.stat|, at);
    if s.stat[at].Waiting? {
      Sums.Update(RankOf(), s.stat, at, Running(s.pc.a));
    } else {
      assert Apply(s, TryStatic).stat == s.stat;
      assert PcRank(Apply(s, TryStatic)) < PcRank(s);
    }
  }

  lemma StepDecreases(s: State, e: Event)
    requires Inv(s) && Enabled(s, e) && Continues(e)
    ensures Measure(Apply(s, e)) < Measure(s)
  {
    match e
    case TryStatic => TryStaticDecreases(s);
    case TakeLock =>
    case Pop =>
    case Install => Sums.Update(RankOf(), s.slots, s.pc.slot, s.pc.spawned);
    case Probe =>
      if s.pc.i < |s.slots| && s.slots[s.pc.i].Waiting? {
        Sums.Update(RankOf(), s.slots, s.pc.i, Running(s.pc.a));
      }
    case Joined =>
    case Worker(w, m) => MoveDecreases(s, w, m);
  }

  ghost predicate AllContinue(es: seq<Event>) {
    forall k :: 0 <= k < |es| ==> Continues(es[k])
  }

  /// Once started, a call of `run` or `drop` is over after boundedly many steps of all threads together.
  lemma {:induction false} StepsBounded(s: State, es: seq<Event>)
    requires Inv(s) && CanRun(s, es) && AllContinue(es)
    ensures |es| + Measure(Run(s, es)) <= Measure(s)
    decreases |es|
  {
    if es == [] {
    } else {
      StepKeepsInv(s, es[0]);
      StepDecreases(s, es[0]);
      StepsBounded(Apply(s, es[0]), es[1..]);
    }
  }

  // ---------------------------------------------------------------- something can always be done

  /// The next step of the thread in slot `i`, or of the thread that holds the lock it wants.
  function NextMove(s: State, w: Who): Event
    requires Present(s, w)
  {
    match PhaseOf(s, w)
    case Starting(_) => Worker(w, Begin)
    case Running(_) => Worker(w, Complete)
    case Looping => Worker(w, Recv)
    case Waiting => Worker(w, Disconnect)
    case Finishing => if s.lock.Finisher? then Worker(Slot(s.lock.slot), Push) else Worker(w, Acquire)
    case Pushing => Worker(w, Push)
    case _ => Worker(w, Exit)
  }

  /// A step that brings the call in progress closer to its end.
  function Progress(s: State): Event {
    match s.pc
    case StatFirst(_) => TryStatic
    case StatLoop(_, _) => TryStatic
    case WantLock(_) => if s.lock.Finisher? then Worker(Slot(s.lock.slot), Push) else TakeLock
    case Holding(_) => Pop
    case Replacing(slot, _) =>
      if slot < |s.slots| && !s.slots[slot].Joinable() then Worker(Slot(slot), Exit) else Install
    case Scan(_, _) => Probe
    case DropDynamic(k) =>
      if k < |s.slots| && !s.slots[k].Joinable() then NextMove(s, Slot(k)) else Joined
    case DropStatic(k) =>
      if k < |s.stat| && !s.stat[k].Joinable() then NextMove(s, StaticWorker(k)) else Joined
    case _ => BeginDrop
  }

  /// No deadlock: in the middle of `run` or `drop` some thread can always move.
  lemma NeverStuck(s: State)
    requires Inv(s) && !s.pc.Idle? && !s.pc.Gone?
    ensures Enabled(s, Progress(s)) && Continues(Progress(s))
  {}

  // ---------------------------------------------------------------- the outcomes

  lemma {:induction false} CallStaysCall(s: State, es: seq<Event>)
    requires CanRun(s, es) && AllContinue(es)
    ensures s.pc.InDrop() ==> Run(s, es).pc.InDrop()
    ensures !s.pc.InDrop() ==> !Run(s, es).pc.InDrop()
    decreases |es|
  {
    if es == [] {
    } else {
      CallStaysCall(Apply(s, es[0]), es[1..]);
    }
  }

  /// Nothing but a new call can happen any more.
  ghost predicate Quiescent(s: State) {
    forall e :: Continues(e) ==> !Enabled(s, e)
  }

  /// `run` returns: whichever way the threads are scheduled, it is back after at most `Measure` steps,
  /// and a schedule cannot end before.
  lemma RunReturns(s: State, a: Action, es: seq<Event>)
    requires Inv(s) && s.pc.Idle?
    requires var t := Apply(s, Submit(a)); CanRun(t, es) && AllContinue(es)
    ensures var t := Apply(s, Submit(a));
            && |es| <= Measure(t)
            && (Quiescent(Run(t, es)) ==> Run(t, es).pc.Idle?)
  {
    var t := Apply(s, Submit(a));
    var u := Run(t, es);
    StepKeepsInv(s, Submit(a));
    RunKeepsInv(t, es);
    StepsBounded(t, es);
    MeasureNonNegative(u);
    CallStaysCall(t, es);
    if !u.pc.Idle? {
      NeverStuck(u);
    }
  }

  ghost predicate AllStopped(s: State) {
    && (forall j :: 0 <= j < |s.stat| ==> s.stat[j].Joinable())
    && (forall i :: 0 <= i < |s.slots| ==> s.slots[i].Joinable())
  }

  /// After `drop` no thread runs and every action was executed or handed back.
  lemma GoneIsClean(s: State, a: Action)
    requires Inv(s) && Balanced(s, a) && s.pc.Gone?
    ensures AllStopped(s)
    ensures Times(a, s.submitted) == Times(a, s.executed) + Times(a, s.rejected)
  {
    Sums.AllZero(Holder(a), s.stat);
    Sums.AllZero(Holder(a), s.slots);
  }

  /// `drop` from any reachable state ends, with every thread stopped and every accepted action executed.
  lemma DropEnds(min: nat, max: nat, before: seq<Event>, after: seq<Event>, a: Action)
    requires min > 0 || max > 0
    requires CanRun(New(min, max), before)
    requires var s := Run(New(min, max), before);
             && s.pc.Idle?
             && CanRun(Apply(s, BeginDrop), after) && AllContinue(after)
    ensures var t := Apply(Run(New(min, max), before), BeginDrop);
            var u := Run(t, after);
            && |after| <= Measure(t)
            && (Quiescent(u) ==>
                  && u.pc.Gone? && AllStopped(u)
                  && Times(a, u.submitted) == Times(a, u.executed) + Times(a, u.rejected))
  {
    var s := Run(New(min, max), before);
    InvInit(min, max);
    BalancedInit(min, max, a);
    RunKeepsInv(New(min, max), before);
    RunKeepsBalance(New(min, max), before, a);
    StepKeepsInv(s, BeginDrop);
    StepKeepsBalance(s, BeginDrop, a);
    var t := Apply(s, BeginDrop);
    var u := Run(t, after);
    RunKeepsInv(t, after);
    RunKeepsBalance(t, after, a);
    StepsBounded(t, after);
    MeasureNonNegative(u);
    CallStaysCall(t, after);
    if u.pc.Gone? {
      GoneIsClean(u, a);
    } else {
      NeverStuck(u);
    }
  }
}
