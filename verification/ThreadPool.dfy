/**
 The code of the submitting thread, in its own form: loops over mutable fields, with the worker threads free to move
 between any two of its atomic actions.  Each method is proved to be a path of the step system, so what holds of every
 run of that system holds of the code.
 */
module ThreadPool {
  import opened PoolProtocol
  import opened PoolInvariant
  import opened PoolLiveness
  import opened PoolOutcome

  // ---------------------------------------------------------------- paths

  ghost predicate IsPath(s: State, es: seq<Event>, t: State) {
    CanRun(s, es) && AllContinue(es) && Run(s, es) == t
  }

  /// Some interleaving of the threads, without a new call, leads from `s` to `t`.
  ghost predicate Leads(s: State, t: State) {
    exists es :: IsPath(s, es, t)
  }

  lemma LeadsRefl(s: State)
    ensures Leads(s, s)
  {
    assert IsPath(s, [], s);
  }

  lemma LeadsStep(s: State, t: State, e: Event)
    requires Leads(s, t) && Enabled(t, e) && Continues(e)
    ensures Leads(s, Apply(t, e))
  {
    var es :| IsPath(s, es, t);
    assert CanRun(Apply(t, e), []);
    RunConcat(s, es, [e]);
    assert IsPath(s, es + [e], Apply(t, e));
  }

  lemma LeadsKeepsInv(s: State, t: State)
    requires Inv(s) && Leads(s, t)
    ensures Inv(t)
  {
    var es :| IsPath(s, es, t);
    RunKeepsInv(s, es);
  }

  // ---------------------------------------------------------------- what the other threads leave alone

  /// The part of the state that only the submitting thread writes.
  ghost predicate SameOwn(s: State, t: State) {
    && t.next == s.next && t.submitted == s.submitted && t.rejected == s.rejected
    && |t.stat| == |s.stat| && |t.slots| == |s.slots|
    && (t.pc == s.pc || (t.pc.Replacing? && s.pc.Replacing? && t.pc.slot == s.pc.slot))
    && (t.lock.Submitter? <==> s.lock.Submitter?)
  }

  lemma MoveLeavesOwn(s: State, w: Who, m: Move)
    requires Inv(s) && CanMove(s, w, m)
    ensures SameOwn(s, MoveWorker(s, w, m))
  {
    MoveKeepsInv(s, w, m);
  }

  lemma WorkerStepLeads(start: State, s: State, e: Event)
    requires Inv(start) && Leads(start, s) && e.Worker? && Enabled(s, e)
    ensures Leads(start, Apply(s, e)) && SameOwn(s, Apply(s, e)) && Measure(Apply(s, e)) < Measure(s)
  {
    LeadsKeepsInv(start, s);
    LeadsStep(start, s, e);
    StepDecreases(s, e);
    MoveLeavesOwn(s, e.w, e.m);
  }

  // ---------------------------------------------------------------- the round robin

  /// At the k-th attempt the k-th worker after `next` was not ready.
  ghost predicate AllBusy(next: nat, size: nat, seen: seq<seq<Phase>>) {
    forall k :: 0 <= k < |seen| ==>
      var j := Cycle(size, next, k);
      j < |seen[k]| && !seen[k][j].Waiting?
  }

  lemma OneMoreBusy(next: nat, size: nat, seen: seq<seq<Phase>>, row: seq<Phase>)
    requires AllBusy(next, size, seen) && Cycle(size, next, |seen|) < |row| && !row[Cycle(size, next, |seen|)].Waiting?
    ensures AllBusy(next, size, seen + [row])
  {}

  /// The next place of the ring is one place further on, and the first again exactly after a whole round.
  lemma RingGoesOn(next: nat, size: nat, k: nat)
    requires next < size && 0 < k <= size && (size > 1 ==> k < size)
    ensures var from := Cycle(size, next, k);
            && from < size && (from + 1) % size == Cycle(size, from, 1)
            && (Cycle(size, from, 1) == next <==> k + 1 >= size)
            && (k + 1 < size ==> Cycle(size, from, 1) == Cycle(size, next, k + 1))
  {
    NextInCycle(size, Cycle(size, next, k));
  }

  /// The two or three outcomes of one attempt at the static worker `at`.
  lemma StaticAttempt(start: State, s: State, at: nat)
    requires Inv(start) && Leads(start, s)
    requires (s.pc.StatFirst? && at == s.next) || (s.pc.StatLoop? && at == s.pc.from)
    ensures at < |s.stat| && (at + 1) % |s.stat| == Cycle(|s.stat|, at, 1)
    ensures Leads(start, StaticOutcome(s, at))
  {
    LeadsKeepsInv(start, s);
    NextInCycle(|s.stat|, at);
    LeadsStep(start, s, TryStatic);
  }

  ghost function StaticOutcome(s: State, at: nat): State
    requires (s.pc.StatFirst? || s.pc.StatLoop?) && at < |s.stat|
  {
    var after := Cycle(|s.stat|, at, 1);
    if s.stat[at].Waiting? then s.(stat := s.stat[at := Running(s.pc.a)], next := after, pc := Idle)
    else if s.pc.StatFirst? || after != s.next then s.(pc := StatLoop(s.pc.a, after))
    else AfterStatic(s, s.pc.a)
  }

  // ---------------------------------------------------------------- the dynamic workers

  /// At the i-th probe the i-th dynamic worker was not ready.
  ghost predicate NoneWaited(probes: seq<seq<Phase>>) {
    forall i :: 0 <= i < |probes| ==> i < |probes[i]| && !probes[i][i].Waiting?
  }

  class Pool {
    var stat: seq<Phase>
    var next: nat
    var slots: seq<Phase>
    var free: seq<nat>
    var lock: Lock
    var pc: Pc                   // where this code stands
    var submitted: seq<Action>   // histories
    var rejected: seq<Action>
    var executed: seq<Action>

    function S(): State
      reads this
    {
      State(stat, next, slots, free, lock, pc, submitted, rejected, executed)
    }

    /// Every run of the pool so far, and since the state `start`, kept the invariant.
    ghost predicate From(start: State)
      reads this
    {
      Inv(start) && Leads(start, S())
    }

    constructor (min: nat, max: nat)
      requires min > 0 || max > 0
      ensures S() == New(min, max) && Inv(S())
      ensures |stat| == min && next == 0 && forall j :: 0 <= j < min ==> stat[j].Looping?
      ensures |slots| == |free| == if min < max then max - min else 0
      ensures forall i :: 0 <= i < |slots| ==> slots[i].Vacant? && free[i] == i
      ensures lock.Free? && pc.Idle? && submitted == rejected == executed == []
    {
      var s := New(min, max);
      stat, next, slots, free, lock, pc := s.stat, s.next, s.slots, s.free, s.lock, s.pc;
      submitted, rejected, executed := [], [], [];
      InvInit(min, max);
    }

    /// One step of some worker thread.
    method WorkerStep(ghost start: State, e: Event)
      requires From(start) && e.Worker? && Enabled(S(), e)
      modifies this
      ensures From(start) && S() == Apply(old(S()), e) && SameOwn(old(S()), S())
      ensures Measure(S()) < old(Measure(S()))
    {
      WorkerStepLeads(start, S(), e);
      var t := Apply(S(), e);
      stat, slots, free, lock, pc, executed := t.stat, t.slots, t.free, t.lock, t.pc, t.executed;
    }

    /// The worker threads run for a while.
    method Others(ghost start: State)
      requires From(start)
      modifies this
      ensures From(start) && SameOwn(old(S()), S())
      ensures Measure(S()) <= old(Measure(S()))
    {
      var n: int := *;
      while n > 0
        invariant From(start) && SameOwn(old(S()), S())
        invariant Measure(S()) <= old(Measure(S()))
      {
        var e: Event := *;
        if e.Worker? && Enabled(S(), e) {
          WorkerStep(start, e);
        }
        n := n - 1;
      }
    }

    /// `exec` on the static worker `at`: a rendezvous if the worker waits, after which the round robin goes on past it.
    method Exec(ghost start: State, a: Action, at: nat) returns (ok: bool, ghost row: seq<Phase>)
      requires From(start) && ((pc == StatFirst(a) && at == next) || pc == StatLoop(a, at))
      modifies this
      ensures From(start) && submitted == old(submitted)
      ensures |stat| == |old(stat)| == |row| && |slots| == |old(slots)| && at < |stat| && next < |stat|
      ensures ok == row[at].Waiting?
      ensures ok ==> stat == row[at := Running(a)] && next == Cycle(|stat|, at, 1)
      ensures ok ==> pc == Idle && rejected == old(rejected)
      ensures !ok ==> next == old(next)
      ensures !ok && (old(pc).StatFirst? || Cycle(|stat|, at, 1) != next) ==>
                pc == StatLoop(a, Cycle(|stat|, at, 1)) && rejected == old(rejected)
      ensures !ok && old(pc).StatLoop? && Cycle(|stat|, at, 1) == next ==>
                && pc == (if |slots| > 0 then WantLock(a) else Idle)
                && rejected == (if |slots| > 0 then old(rejected) else old(rejected) + [a])
    {
      Others(start);
      row := stat;
      LeadsKeepsInv(start, S());
      StaticAttempt(start, S(), at);
      ok := stat[at].Waiting?;
      var after: nat := (at + 1) % |stat|;
      if ok {
        stat := stat[at := Running(a)];
        next := after;
        pc := Idle;
      } else if pc.StatFirst? || after != next {
        pc := StatLoop(a, after);
      } else {
        rejected := if |slots| > 0 then rejected else rejected + [a];
        pc := if |slots| > 0 then WantLock(a) else Idle;
      }
    }

    /// `Static::run`: the action goes to the first worker found ready in cyclic order from `next`; it is handed back
    /// when each was found busy once, a single worker twice.  `busy` is the workers at each attempt that failed, in
    /// order, and `last` the workers at the one that succeeded.
    method StaticRun(ghost start: State, a: Action)
      returns (ok: bool, ghost busy: seq<seq<Phase>>, ghost last: seq<Phase>)
      requires From(start) && pc == StatFirst(a)
      modifies this
      ensures From(start)
      ensures submitted == old(submitted) && |stat| == |old(stat)| && |slots| == |old(slots)|
      ensures AllBusy(old(next), |stat|, busy)
      ensures ok ==> |busy| <= |stat| && pc.Idle? && rejected == old(rejected)
      ensures ok ==> var j := Cycle(|stat|, old(next), |busy|);
                     && j < |last| && last[j].Waiting?
                     && stat == last[j := Running(a)] && next == Cycle(|stat|, j, 1)
      ensures !ok ==> |busy| == (if |stat| == 1 then 2 else |stat|) && next == old(next)
      ensures !ok ==> pc == if |slots| > 0 then WantLock(a) else Idle
      ensures !ok ==> rejected == if |slots| > 0 then old(rejected) else old(rejected) + [a]
    {
      busy := [];
      ok, last := Exec(start, a, next);
      if ok {
        return;
      }
      busy := [last];
      var size := |stat|;
      NextInCycle(size, next);
      var from: nat := (next + 1) % size;
      while true
        invariant From(start) && pc == StatLoop(a, from) && |stat| == size && |slots| == |old(slots)|
        invariant next == old(next) < size && submitted == old(submitted) && rejected == old(rejected)
        invariant 1 <= |busy| <= size && (size > 1 ==> |busy| < size)
        invariant from == Cycle(size, next, |busy|) && AllBusy(next, size, busy)
        decreases size - |busy|
      {
        ok, last := Exec(start, a, from);
        if ok {
          return;
        }
        OneMoreBusy(next, size, busy, last);
        RingGoesOn(next, size, |busy|);
        busy := busy + [last];
        from := (from + 1) % size;
        if from == next {
          return;
        }
      }
    }

    /// Some worker thread, chosen by the scheduler, takes a step.  There is one that can.
    method Elsewhere(ghost start: State)
      requires From(start)
      requires !pc.Idle? && !pc.Gone? && Progress(S()).Worker?
      modifies this
      ensures From(start) && SameOwn(old(S()), S())
      ensures Measure(S()) < old(Measure(S()))
    {
      LeadsKeepsInv(start, S());
      NeverStuck(S());
      var e: Event :| e.Worker? && Enabled(S(), e);
      WorkerStep(start, e);
    }

    /// One step of this thread.
    method OwnStep(ghost start: State, e: Event)
      requires From(start)
      requires Enabled(S(), e) && Continues(e) && !e.Worker?
      modifies this
      ensures From(start) && S() == Apply(old(S()), e)
    {
      LeadsStep(start, S(), e);
      var t := Apply(S(), e);
      stat, next, slots, free, lock, pc := t.stat, t.next, t.slots, t.free, t.lock, t.pc;
      rejected := t.rejected;
    }

    /// Blocks until the lock on the free slots is ours.  It ends, whatever the scheduler does.
    method AwaitLock(ghost start: State, a: Action)
      requires From(start) && pc == WantLock(a)
      modifies this
      ensures From(start) && pc == Holding(a)
      ensures next == old(next) && submitted == old(submitted) && rejected == old(rejected)
      ensures |stat| == |old(stat)| && |slots| == |old(slots)|
    {
      Others(start);
      while !lock.Free?
        invariant From(start) && SameOwn(old(S()), S())
        decreases Measure(S())
      {
        LeadsKeepsInv(start, S());
        MeasureNonNegative(S());
        Elsewhere(start);
      }
      OwnStep(start, TakeLock);
    }

    /// Joins the thread the slot held before.  It is past its push, so it does not need the lock this thread holds.
    method JoinReplaced(ghost start: State)
      requires From(start) && pc.Replacing?
      modifies this
      ensures From(start) && pc.Replacing? && pc.slot == old(pc.slot)
      ensures pc.slot < |slots| && slots[pc.slot].Joinable()
      ensures next == old(next) && submitted == old(submitted) && rejected == old(rejected)
      ensures |stat| == |old(stat)| && |slots| == |old(slots)|
    {
      LeadsKeepsInv(start, S());
      Others(start);
      while !slots[pc.slot].Joinable()
        invariant From(start) && SameOwn(old(S()), S())
        decreases Measure(S())
      {
        LeadsKeepsInv(start, S());
        MeasureNonNegative(S());
        Elsewhere(start);
      }
    }

    /// `Dynamic::try_add_worker`: `atPop` is the state in which the lock is held and a free slot is asked for.  It
    /// succeeds exactly when there is one then, and at its end the first of them holds the new worker, not yet past
    /// its push.
    method TryAddWorker(ghost start: State, a: Action) returns (ok: bool, ghost atPop: State)
      requires From(start) && pc == WantLock(a)
      modifies this
      ensures From(start)
      ensures Leads(start, atPop) && atPop.pc == Holding(a)
      ensures ok <==> atPop.free != []
      ensures ok ==> atPop.free[0] < |slots| && !slots[atPop.free[0]].PastPush() && lock.Free?
      ensures next == old(next) && submitted == old(submitted) && rejected == old(rejected)
      ensures |stat| == |old(stat)| && |slots| == |old(slots)|
      ensures pc == if ok then Idle else Scan(a, 0)
    {
      AwaitLock(start, a);
      atPop := S();
      ok := free != [];
      OwnStep(start, Pop);
      if ok {
        JoinReplaced(start);
        LeadsKeepsInv(start, S());
        OwnStep(start, Install);
      }
    }

    /// `Dynamic::run`: if no slot is free at the pop, the workers are tried in order, and the first that waits takes
    /// the action; it is handed back when none of them did.  `probes` is the slots at each attempt that failed, in
    /// order, and `last` the slots at the one that succeeded.
    method DynamicRun(ghost start: State, a: Action)
      returns (ok: bool, ghost atPop: State, ghost probes: seq<seq<Phase>>, ghost last: seq<Phase>)
      requires From(start) && pc == WantLock(a)
      modifies this
      ensures From(start) && pc.Idle?
      ensures submitted == old(submitted) && |slots| == |old(slots)|
      ensures rejected == if ok then old(rejected) else old(rejected) + [a]
      ensures Leads(start, atPop) && atPop.pc == Holding(a)
      ensures atPop.free != [] ==>
                ok && probes == [] && atPop.free[0] < |slots| && !slots[atPop.free[0]].PastPush() && lock.Free?
      ensures NoneWaited(probes)
      ensures ok && atPop.free == [] ==>
                var i := |probes|;
                i < |last| && last[i].Waiting? && slots == last[i := Running(a)]
      ensures !ok ==> atPop.free == [] && |probes| == |slots|
    {
      probes, last := [], [];
      ok, atPop := TryAddWorker(start, a);
      if ok {
        return;
      }
      for i := 0 to |slots|
        invariant From(start) && pc == Scan(a, i) && |probes| == i && NoneWaited(probes)
        invariant submitted == old(submitted) && rejected == old(rejected) && |slots| == |old(slots)|
      {
        Others(start);
        last := slots;
        ok := slots[i].Waiting?;
        OwnStep(start, Probe);
        if ok {
          return;
        }
        probes := probes + [last];
      }
      OwnStep(start, Probe);
      ok := false;
    }

    /// `Pool::run`: it returns under every scheduler, and hands back the very action it was given exactly when it
    /// fails.
    method Run(a: Action) returns (ok: bool)
      requires Inv(S()) && pc.Idle?
      modifies this
      ensures Inv(S()) && pc.Idle? && Leads(Apply(old(S()), Submit(a)), S())
      ensures submitted == old(submitted) + [a]
      ensures rejected == if ok then old(rejected) else old(rejected) + [a]
    {
      StepKeepsInv(S(), Submit(a));
      ghost var start := Apply(S(), Submit(a));
      LeadsRefl(start);
      submitted := submitted + [a];
      if |stat| > 0 {
        pc := StatFirst(a);
        ghost var busy, last;
        ok, busy, last := StaticRun(start, a);
        if ok {
          LeadsKeepsInv(start, S());
          return;
        }
      } else {
        pc := if |slots| > 0 then WantLock(a) else Idle;
        rejected := if |slots| > 0 then rejected else rejected + [a];
      }
      if |slots| > 0 {
        ghost var atPop, probes, found;
        ok, atPop, probes, found := DynamicRun(start, a);
      } else {
        ok := false;
      }
      LeadsKeepsInv(start, S());
    }

    /// `drop`: the dynamic workers are joined in order, then the static ones.
    method Drop()
      requires Inv(S()) && pc.Idle?
      modifies this
      ensures Inv(S()) && pc.Gone? && Leads(Apply(old(S()), BeginDrop), S())
      ensures AllStopped(S()) && submitted == old(submitted) && rejected == old(rejected)
    {
      StepKeepsInv(S(), BeginDrop);
      ghost var start := Apply(S(), BeginDrop);
      LeadsRefl(start);
      pc := DropDynamic(0);
      for k := 0 to |slots|
        invariant From(start) && pc == DropDynamic(k) && |slots| == |old(slots)| && |stat| == |old(stat)|
        invariant submitted == old(submitted) && rejected == old(rejected)
      {
        JoinCurrent(start);
      }
      OwnStep(start, Joined);
      for k := 0 to |stat|
        invariant From(start) && pc == DropStatic(k) && |stat| == |old(stat)|
        invariant submitted == old(submitted) && rejected == old(rejected)
      {
        JoinCurrent(start);
      }
      OwnStep(start, Joined);
      LeadsKeepsInv(start, S());
    }

    /// Waits for the worker whose sender was dropped last to exit.
    method JoinCurrent(ghost start: State)
      requires From(start)
      requires (pc.DropDynamic? && pc.k < |slots|) || (pc.DropStatic? && pc.k < |stat|)
      modifies this
      ensures From(start)
      ensures pc == if old(pc).DropDynamic? then DropDynamic(old(pc.k) + 1) else DropStatic(old(pc.k) + 1)
      ensures submitted == old(submitted) && rejected == old(rejected)
      ensures |stat| == |old(stat)| && |slots| == |old(slots)|
    {
      AwaitExit(start);
      OwnStep(start, Joined);
    }

    method AwaitExit(ghost start: State)
      requires From(start)
      requires (pc.DropDynamic? && pc.k < |slots|) || (pc.DropStatic? && pc.k < |stat|)
      modifies this
      ensures From(start) && SameOwn(old(S()), S()) && Enabled(S(), Joined)
    {
      Others(start);
      while !(if pc.DropDynamic? then slots[pc.k] else stat[pc.k]).Joinable()
        invariant From(start) && SameOwn(old(S()), S())
        decreases Measure(S())
      {
        LeadsKeepsInv(start, S());
        MeasureNonNegative(S());
        Elsewhere(start);
      }
    }
  }
}
