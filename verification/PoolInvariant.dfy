/** What every interleaving of the thread pool keeps: the queue of free slots is exact. */
module PoolInvariant {
  import opened PoolProtocol

  // ---------------------------------------------------------------- the invariant

  ghost predicate NoDuplicates<T>(q: seq<T>) {
    forall i, j :: 0 <= i < j < |q| ==> q[i] != q[j]
  }

  ghost predicate CursorsInRange(s: State) {
    && (|s.stat| > 0 ==> s.next < |s.stat|)
    && match s.pc
       case StatFirst(_) => |s.stat| > 0
       case StatLoop(_, from) => from < |s.stat|
       case WantLock(_) => |s.slots| > 0
       case Holding(_) => |s.slots| > 0
       case Replacing(slot, _) => slot < |s.slots|
       case Scan(_, i) => i <= |s.slots|
       case DropDynamic(k) => k <= |s.slots|
       case DropStatic(k) => k <= |s.stat|
       case _ => true
  }

  /// A static worker stops only once its sender is gone, so `exec` never meets a disconnected channel.
  ghost predicate StaticAlive(s: State) {
    forall j :: 0 <= j < |s.stat| ==>
      var p := s.stat[j];
      || p.Running? || p.Looping? || p.Waiting?
      || (SenderGone(s, StaticWorker(j)) && (p.Exiting? || p.Exited?))
  }

  /// The lock on the free slots has one holder, and it is the one the phases say.
  ghost predicate LockExact(s: State) {
    && (s.lock.Submitter? <==> s.pc.Holding? || s.pc.Replacing?)
    && (forall i :: 0 <= i < |s.slots| ==> (s.slots[i].Pushing? <==> s.lock == Finisher(i)))
    && (s.lock.Finisher? ==> s.lock.slot < |s.slots|)
    && (s.pc.Replacing? ==>
          var p := s.pc.spawned; p.Starting? || p.Running? || p.Looping? || p.Waiting? || p.Finishing?)
  }

  /// A slot is in the queue, once, exactly when its worker is past its push and it is not being refilled.
  ghost predicate FreeExact(s: State) {
    && NoDuplicates(s.free)
    && (forall x :: x in s.free ==> x < |s.slots|)
    && (forall i :: 0 <= i < |s.slots| ==>
          (i in s.free <==> s.slots[i].PastPush() && !(s.pc.Replacing? && s.pc.slot == i)))
    && (s.pc.Replacing? && s.pc.slot < |s.slots| ==> s.slots[s.pc.slot].PastPush())
  }

  /// The workers already joined by `drop` have stopped.
  ghost predicate JoinedInOrder(s: State) {
    && (s.pc.DropDynamic? ==> forall i :: 0 <= i < |s.slots| && i < s.pc.k ==> s.slots[i].Joinable())
    && (s.pc.DropStatic? || s.pc.Gone? ==> forall i :: 0 <= i < |s.slots| ==> s.slots[i].Joinable())
    && (s.pc.DropStatic? ==> forall j :: 0 <= j < |s.stat| && j < s.pc.k ==> s.stat[j].Joinable())
    && (s.pc.Gone? ==> forall j :: 0 <= j < |s.stat| ==> s.stat[j].Joinable())
  }

  ghost predicate Inv(s: State) {
    CursorsInRange(s) && StaticAlive(s) && LockExact(s) && FreeExact(s) && JoinedInOrder(s)
  }

  // ---------------------------------------------------------------- it holds at first and every step keeps it

  lemma InvInit(min: nat, max: nat)
    requires min > 0 || max > 0
    ensures Inv(New(min, max))
  {
    var s := New(min, max);
    forall i | 0 <= i < |s.slots|
      ensures i in s.free
    {
      assert s.free[i] == i;
    }
  }

  /// Taking the lock, and giving the slot back under it.
  lemma GiveBackKeepsInv(s: State, w: Who, m: Move)
    requires Inv(s) && CanMove(s, w, m) && (m.Acquire? || m.Push?)
    ensures Inv(MoveWorker(s, w, m))
  {
    assert FreeExact(MoveWorker(s, w, m));
  }

  lemma StaticMoveKeepsInv(s: State, w: Who, m: Move)
    requires Inv(s) && CanMove(s, w, m) && w.StaticWorker?
    ensures Inv(MoveWorker(s, w, m))
  {}

  lemma MoveKeepsInv(s: State, w: Who, m: Move)
    requires Inv(s) && CanMove(s, w, m)
    ensures Inv(MoveWorker(s, w, m))
  {
    if m.Acquire? || m.Push? {
      GiveBackKeepsInv(s, w, m);
    } else if w.StaticWorker? {
      StaticMoveKeepsInv(s, w, m);
    } else {
      assert FreeExact(MoveWorker(s, w, m));
    }
  }

  lemma PopKeepsInv(s: State)
    requires Inv(s) && Enabled(s, Pop)
    ensures Inv(Apply(s, Pop))
  {
    var s' := Apply(s, Pop);
    if s.free != [] {
      assert forall x :: x in s.free <==> x == s.free[0] || x in s'.free;
      assert s.free[0] !in s'.free;
    }
  }

  lemma TryStaticKeepsInv(s: State)
    requires Inv(s) && Enabled(s, TryStatic)
    ensures Inv(Apply(s, TryStatic))
  {}

  lemma JoinedKeepsInv(s: State)
    requires Inv(s) && Enabled(s, Joined)
    ensures Inv(Apply(s, Joined))
  {}

  lemma StepKeepsInv(s: State, e: Event)
    requires Inv(s) && Enabled(s, e)
    ensures Inv(Apply(s, e))
  {
    match e
    case Submit(_) =>
    case TryStatic => TryStaticKeepsInv(s);
    case TakeLock =>
    case Pop => PopKeepsInv(s);
    case Install =>
    case Probe =>
    case BeginDrop =>
    case Joined => JoinedKeepsInv(s);
    case Worker(w, m) => MoveKeepsInv(s, w, m);
  }

  /// Safety over every run: whatever the interleaving, the invariant holds at the end of it.
  lemma {:induction false} RunKeepsInv(s: State, es: seq<Event>)
    requires Inv(s) && CanRun(s, es)
    ensures Inv(Run(s, es))
    decreases |es|
  {
    if es == [] {
    } else {
      StepKeepsInv(s, es[0]);
      RunKeepsInv(Apply(s, es[0]), es[1..]);
    }
  }

  lemma {:induction false} RunConcat(s: State, xs: seq<Event>, ys: seq<Event>)
    requires CanRun(s, xs) && CanRun(Run(s, xs), ys)
    ensures CanRun(s, xs + ys) && Run(s, xs + ys) == Run(Run(s, xs), ys)
    decreases |xs|
  {
    if xs == [] {
      assert xs + ys == ys;
    } else {
      RunConcat(Apply(s, xs[0]), xs[1..], ys);
      assert (xs + ys)[1..] == xs[1..] + ys;
    }
  }
}
