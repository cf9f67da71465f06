/** What the pool promises in every reachable state: exact free slots, exactly-once actions, bounded concurrency. */
module PoolSafety {
  import opened PoolProtocol
  import opened PoolInvariant
  import Sums

  // ---------------------------------------------------------------- the free slots

  /// The dynamic workers that have not given their slot back.
  ghost function Unfinished(s: State): set<nat> {
    set i: nat | i < |s.slots| && !s.slots[i].PastPush()
  }

  function NumberOfWorkers(s: State): int {
    |s.slots| - |s.free|
  }

  ghost function Elements(q: seq<nat>): set<nat> {
    set x | x in q
  }

  lemma {:induction false} DistinctCount(q: seq<nat>)
    requires NoDuplicates(q)
    ensures |Elements(q)| == |q|
  {
    if q == [] {
    } else {
      var n := |q| - 1;
      DistinctCount(q[..n]);
      assert Elements(q) == Elements(q[..n]) + {q[n]};
      assert q[n] !in q[..n];
    }
  }

  /// While no thread is inside `try_add_worker`, the queue holds exactly the slots that are empty or whose worker
  /// has pushed its index, and `number_of_workers` counts the others.
  lemma FreeSlotsExact(s: State)
    requires Inv(s) && !s.lock.Submitter?
    ensures NoDuplicates(s.free)
    ensures forall i: nat :: i in s.free <==> i < |s.slots| && s.slots[i].PastPush()
    ensures NumberOfWorkers(s) == |Unfinished(s)| <= |s.slots|
  {
    var queued := Elements(s.free);
    var all := Iota(|s.slots|);
    DistinctCount(s.free);
    DistinctCount(all);
    assert queued + Unfinished(s) == Elements(all) by {
      forall i: nat | i < |s.slots| ensures i in all {
        assert all[i] == i;
      }
    }
    assert queued !! Unfinished(s);
    assert |queued + Unfinished(s)| == |queued| + |Unfinished(s)|;
  }

  /// `try_add_worker` holds the lock while it joins the old thread of the slot; that thread does not want the lock.
  lemma JoinUnderLockIsSafe(s: State)
    requires Inv(s) && s.pc.Replacing?
    ensures s.lock.Submitter?
    ensures var p := s.slots[s.pc.slot];
            p.Joinable() || (p.Exiting? && CanMove(s, Slot(s.pc.slot), Exit))
  {}

  // ---------------------------------------------------------------- conservation of actions

  ghost function Is(a: Action): Action -> nat {
    x => if x == a then 1 else 0
  }

  ghost function Holder(a: Action): Phase -> nat {
    (p: Phase) => if p.Holds(a) then 1 else 0
  }

  ghost function Times(a: Action, q: seq<Action>): nat {
    Sums.Sum(Is(a), q)
  }

  ghost function PendingTimes(a: Action, s: State): nat {
    Sums.Sum(Holder(a), s.stat) + Sums.Sum(Holder(a), s.slots) + if s.pc.Holds(a) then 1 else 0
  }

  /// As often as `a` was submitted it has been executed, handed back or is held by one thread.
  ghost predicate Balanced(s: State, a: Action) {
    Times(a, s.submitted) == Times(a, s.executed) + Times(a, s.rejected) + PendingTimes(a, s)
  }

  lemma BalancedInit(min: nat, max: nat, a: Action)
    requires min > 0 || max > 0
    ensures Balanced(New(min, max), a)
  {
    var s := New(min, max);
    Sums.AllZero(Holder(a), s.stat);
    Sums.AllZero(Holder(a), s.slots);
  }

  /// Changing the phase of one worker changes the pending count by what that worker holds.
  lemma PendingAfter(s: State, w: Who, p: Phase, a: Action)
    requires Present(s, w)
    ensures PendingTimes(a, WithPhase(s, w, p)) + Holder(a)(PhaseOf(s, w)) == PendingTimes(a, s) + Holder(a)(p)
  {
    match w
    case StaticWorker(j) => Sums.Update(Holder(a), s.stat, j, p);
    case Slot(i) => Sums.Update(Holder(a), s.slots, i, p);
    case Fresh =>
  }

  /// A move changes one phase; only completing an action takes it from the worker, and records it.
  lemma MoveShape(s: State, w: Who, m: Move)
    requires CanMove(s, w, m)
    ensures var s' := MoveWorker(s, w, m);
            && Present(s', w)
            && var p := PhaseOf(s', w);
               && s'.stat == WithPhase(s, w, p).stat && s'.slots == WithPhase(s, w, p).slots
               && s'.pc == WithPhase(s, w, p).pc && s'.submitted == s.submitted && s'.rejected == s.rejected
               && s'.executed == s.executed + (if m.Complete? then [PhaseOf(s, w).a] else [])
               && (if m.Complete? then p == Looping else forall x :: p.Holds(x) <==> PhaseOf(s, w).Holds(x))
  {}

  lemma MoveKeepsBalance(s: State, w: Who, m: Move, a: Action)
    requires Balanced(s, a) && CanMove(s, w, m)
    ensures Balanced(MoveWorker(s, w, m), a)
  {
    MoveShape(s, w, m);
    var s' := MoveWorker(s, w, m);
    var p := PhaseOf(s', w);
    PendingAfter(s, w, p, a);
    assert PendingTimes(a, s') == PendingTimes(a, WithPhase(s, w, p));
    if m.Complete? {
      Sums.Append(Is(a), s.executed, PhaseOf(s, w).a);
    } else {
      assert s'.executed == s.executed;
    }
  }

  lemma AfterStaticKeepsBalance(s: State, a: Action)
    requires Balanced(s, a) && s.pc.StatLoop?
    ensures Balanced(AfterStatic(s, s.pc.a), a)
  {
    Sums.Append(Is(a), s.rejected, s.pc.a);
  }

  lemma TryStaticKeepsBalance(s: State, a: Action)
    requires Balanced(s, a) && Enabled(s, TryStatic)
    ensures Balanced(Apply(s, TryStatic), a)
  {
    var at := if s.pc.StatFirst? then s.next else s.pc.from;
    if s.stat[at].Waiting? {
      PendingAfter(s, StaticWorker(at), Running(s.pc.a), a);
    } else if s.pc.StatLoop? {
      AfterStaticKeepsBalance(s, a);
    }
  }

  lemma ProbeKeepsBalance(s: State, a: Action)
    requires Balanced(s, a) && Enabled(s, Probe)
    ensures Balanced(Apply(s, Probe), a)
  {
    if s.pc.i < |s.slots| {
      PendingAfter(s, Slot(s.pc.i), Running(s.pc.a), a);
    } else {
      Sums.Append(Is(a), s.rejected, s.pc.a);
    }
  }

  lemma InstallKeepsBalance(s: State, a: Action)
    requires Balanced(s, a) && Enabled(s, Install)
    ensures Balanced(Apply(s, Install), a)
  {
    Sums.Update(Holder(a), s.slots, s.pc.slot, s.pc.spawned);
  }

  /// The action is with the submitting thread.
  lemma SubmitIsHeld(s: State, x: Action, a: Action)
    requires Balanced(s, a) && s.pc.Idle? && (|s.stat| > 0 || |s.slots| > 0)
    ensures Balanced(Apply(s, Submit(x)), a)
  {
    Sums.Append(Is(a), s.submitted, x);
  }

  /// There is no worker at all, and the action is handed back.
  lemma SubmitIsRejected(s: State, x: Action, a: Action)
    requires Balanced(s, a) && s.pc.Idle? && |s.stat| == |s.slots| == 0
    ensures Balanced(Apply(s, Submit(x)), a)
  {
    Sums.Append(Is(a), s.submitted, x);
    Sums.Append(Is(a), s.rejected, x);
  }

  lemma SubmitKeepsBalance(s: State, x: Action, a: Action)
    requires Balanced(s, a) && Enabled(s, Submit(x))
    ensures Balanced(Apply(s, Submit(x)), a)
  {
    if |s.stat| > 0 || |s.slots| > 0 {
      SubmitIsHeld(s, x, a);
    } else {
      SubmitIsRejected(s, x, a);
    }
  }

  lemma StepKeepsBalance(s: State, e: Event, a: Action)
    requires Balanced(s, a) && Enabled(s, e)
    ensures Balanced(Apply(s, e), a)
  {
    match e
    case Submit(x) => SubmitKeepsBalance(s, x, a);
    case TryStatic => TryStaticKeepsBalance(s, a);
    case TakeLock =>
    case Pop =>
    case Install => InstallKeepsBalance(s, a);
    case Probe => ProbeKeepsBalance(s, a);
    case BeginDrop =>
    case Joined =>
    case Worker(w, m) => MoveKeepsBalance(s, w, m, a);
  }

  lemma {:induction false} RunKeepsBalance(s: State, es: seq<Event>, a: Action)
    requires Balanced(s, a) && CanRun(s, es)
    ensures Balanced(Run(s, es), a)
    decreases |es|
  {
    if es == [] {
    } else {
      StepKeepsBalance(s, es[0], a);
      RunKeepsBalance(Apply(s, es[0]), es[1..], a);
    }
  }

  /// Where an action can be.
  datatype Place =
    | DoneAt(n: nat) | HandedBackAt(n: nat) | WithStatic(j: nat) | WithSlot(i: nat) | WithSubmitter

  ghost predicate At(s: State, a: Action, place: Place) {
    match place
    case DoneAt(n) => n < |s.executed| && s.executed[n] == a
    case HandedBackAt(n) => n < |s.rejected| && s.rejected[n] == a
    case WithStatic(j) => j < |s.stat| && s.stat[j].Holds(a)
    case WithSlot(i) => i < |s.slots| && s.slots[i].Holds(a)
    case WithSubmitter => s.pc.Holds(a)
  }

  lemma Somewhere(s: State, a: Action) returns (place: Place)
    requires Balanced(s, a) && Times(a, s.submitted) > 0
    ensures At(s, a, place)
  {
    if Times(a, s.executed) > 0 {
      var n := Sums.Witness(Is(a), s.executed);
      place := DoneAt(n);
    } else if Times(a, s.rejected) > 0 {
      var n := Sums.Witness(Is(a), s.rejected);
      place := HandedBackAt(n);
    } else if Sums.Sum(Holder(a), s.stat) > 0 {
      var j := Sums.Witness(Holder(a), s.stat);
      place := WithStatic(j);
    } else if Sums.Sum(Holder(a), s.slots) > 0 {
      var i := Sums.Witness(Holder(a), s.slots);
      place := WithSlot(i);
    } else {
      place := WithSubmitter;
    }
  }

  /// The share of a place in the balance.
  lemma PlaceCounts(s: State, a: Action, place: Place)
    requires At(s, a, place)
    ensures match place
            case DoneAt(_) => Times(a, s.executed) >= 1
            case HandedBackAt(_) => Times(a, s.rejected) >= 1
            case WithStatic(_) => Sums.Sum(Holder(a), s.stat) >= 1
            case WithSlot(_) => Sums.Sum(Holder(a), s.slots) >= 1
            case WithSubmitter => true
  {
    match place
    case DoneAt(n) => Sums.AtLeast(Is(a), s.executed, n);
    case HandedBackAt(n) => Sums.AtLeast(Is(a), s.rejected, n);
    case WithStatic(j) => Sums.AtLeast(Holder(a), s.stat, j);
    case WithSlot(i) => Sums.AtLeast(Holder(a), s.slots, i);
    case WithSubmitter =>
  }

  lemma TwoInOneRow<T>(f: T -> nat, q: seq<T>, i: nat, j: nat)
    requires i < |q| && j < |q| && i != j && f(q[i]) > 0 && f(q[j]) > 0
    ensures Sums.Sum(f, q) >= 2
  {
    if i < j {
      Sums.AtLeastTwo(f, q, i, j);
    } else {
      Sums.AtLeastTwo(f, q, j, i);
    }
  }

  lemma NotTwice(s: State, a: Action, p: Place, q: Place)
    requires Balanced(s, a) && Times(a, s.submitted) <= 1
    requires At(s, a, p) && At(s, a, q)
    ensures p == q
  {
    PlaceCounts(s, a, p);
    PlaceCounts(s, a, q);
    if p != q {
      match (p, q) {
        case (DoneAt(m), DoneAt(n)) => TwoInOneRow(Is(a), s.executed, m, n);
        case (HandedBackAt(m), HandedBackAt(n)) => TwoInOneRow(Is(a), s.rejected, m, n);
        case (WithStatic(m), WithStatic(n)) => TwoInOneRow(Holder(a), s.stat, m, n);
        case (WithSlot(m), WithSlot(n)) => TwoInOneRow(Holder(a), s.slots, m, n);
        case _ =>
      }
    }
  }

  /// An action submitted once is, in every interleaving and at every moment, in exactly one place: executed once,
  /// handed back, or with exactly one thread.  An action never submitted is nowhere.
  lemma ExactlyOnePlace(min: nat, max: nat, es: seq<Event>, a: Action)
    requires min > 0 || max > 0
    requires CanRun(New(min, max), es)
    ensures var s := Run(New(min, max), es);
            && (Times(a, s.submitted) == 1 ==>
                  exists p :: At(s, a, p) && forall q :: At(s, a, q) ==> q == p)
            && (Times(a, s.submitted) == 0 ==> forall q :: !At(s, a, q))
  {
    var s := Run(New(min, max), es);
    BalancedInit(min, max, a);
    RunKeepsBalance(New(min, max), es, a);
    if Times(a, s.submitted) == 1 {
      var p := Somewhere(s, a);
      forall q | At(s, a, q) ensures q == p {
        NotTwice(s, a, q, p);
      }
    } else if Times(a, s.submitted) == 0 {
      forall q ensures !At(s, a, q) {
        if At(s, a, q) {
          PlaceCounts(s, a, q);
        }
      }
    }
  }

  // ---------------------------------------------------------------- how many run at once

  ghost function Busy(): Phase -> nat {
    (p: Phase) => if p.Starting? || p.Running? then 1 else 0
  }

  /// The number of actions being executed or about to be.
  ghost function InProgress(s: State): nat {
    Sums.Sum(Busy(), s.stat) + Sums.Sum(Busy(), s.slots) + if s.pc.Replacing? then Busy()(s.pc.spawned) else 0
  }

  lemma StepKeepsSizes(s: State, e: Event)
    requires Enabled(s, e)
    ensures |Apply(s, e).stat| == |s.stat| && |Apply(s, e).slots| == |s.slots|
  {}

  lemma {:induction false} RunKeepsSizes(s: State, es: seq<Event>)
    requires CanRun(s, es)
    ensures |Run(s, es).stat| == |s.stat| && |Run(s, es).slots| == |s.slots|
    decreases |es|
  {
    if es == [] {
    } else {
      StepKeepsSizes(s, es[0]);
      RunKeepsSizes(Apply(s, es[0]), es[1..]);
    }
  }

  /// At most `min` actions (if `min >= max`) or `max` actions (otherwise) are in progress at once, in every run.
  lemma BoundedConcurrency(min: nat, max: nat, es: seq<Event>)
    requires min > 0 || max > 0
    requires CanRun(New(min, max), es)
    ensures InProgress(Run(New(min, max), es)) <= if min < max then max else min
  {
    var s := Run(New(min, max), es);
    InvInit(min, max);
    RunKeepsInv(New(min, max), es);
    RunKeepsSizes(New(min, max), es);
    Sums.Bounded(Busy(), s.stat);
    if s.pc.Replacing? {
      Sums.Update(Busy(), s.slots, s.pc.slot, s.pc.spawned);
      Sums.Bounded(Busy(), s.slots[s.pc.slot := s.pc.spawned]);
    } else {
      Sums.Bounded(Busy(), s.slots);
    }
  }
}
