/** Where an action goes when no worker moves during the call: the exact condition for a busy pool, and fair rounds. */
module PoolOutcome {
  import opened PoolProtocol
  import opened PoolInvariant
  import opened PoolLiveness

  /// The next step of the submitting thread.
  function OwnEvent(pc: Pc): Event {
    match pc
    case StatFirst(_) => TryStatic
    case StatLoop(_, _) => TryStatic
    case WantLock(_) => TakeLock
    case Holding(_) => Pop
    case Replacing(_, _) => Install
    case Scan(_, _) => Probe
    case _ => Joined
  }

  /// The submitting thread alone goes on with its call as far as it can.
  ghost function Undisturbed(s: State): State
    requires Inv(s)
    decreases Measure(s) + 1
  {
    if !s.pc.InCall() || !Enabled(s, OwnEvent(s.pc)) then s
    else
      StepKeepsInv(s, OwnEvent(s.pc));
      StepDecreases(s, OwnEvent(s.pc));
      MeasureNonNegative(s);
      MeasureNonNegative(Apply(s, OwnEvent(s.pc)));
      Undisturbed(Apply(s, OwnEvent(s.pc)))
  }

  lemma OneMore(s: State)
    requires Inv(s) && s.pc.InCall() && Enabled(s, OwnEvent(s.pc))
    ensures Inv(Apply(s, OwnEvent(s.pc)))
    ensures Undisturbed(s) == Undisturbed(Apply(s, OwnEvent(s.pc)))
  {
    StepKeepsInv(s, OwnEvent(s.pc));
  }

  ghost predicate Rejects(s: State, t: State, a: Action) {
    t.pc.Idle? && t.rejected == s.rejected + [a]
  }

  ghost predicate Accepts(s: State, t: State) {
    (t.pc.Idle? || t.pc.Replacing?) && t.rejected == s.rejected
  }

  ghost predicate Verdict(s: State, a: Action, busy: bool)
    requires Inv(s)
  {
    if busy then Rejects(s, Undisturbed(s), a) else Accepts(s, Undisturbed(s))
  }

  ghost predicate NoneWaits(ps: seq<Phase>) {
    forall i :: 0 <= i < |ps| ==> !ps[i].Waiting?
  }

  lemma {:induction false} ScanVerdict(s: State)
    requires Inv(s) && s.pc.Scan?
    ensures Verdict(s, s.pc.a, NoneWaits(s.slots[s.pc.i..]))
    decreases |s.slots| - s.pc.i
  {
    OneMore(s);
    var t := Apply(s, Probe);
    var rest := s.slots[s.pc.i..];
    if s.pc.i >= |s.slots| {
    } else {
      assert rest[0] == s.slots[s.pc.i];
      if !s.slots[s.pc.i].Waiting? {
        ScanVerdict(t);
        assert t.slots[t.pc.i..] == rest[1..];
        assert rest == [rest[0]] + rest[1..];
      }
    }
  }

  ghost predicate DynamicBusy(s: State) {
    s.free == [] && NoneWaits(s.slots)
  }

  lemma DynamicVerdict(s: State)
    requires Inv(s) && s.pc.WantLock? && s.lock.Free?
    ensures Verdict(s, s.pc.a, DynamicBusy(s))
  {
    OneMore(s);
    var t := Apply(s, TakeLock);
    OneMore(t);
    var u := Apply(t, Pop);
    if s.free == [] {
      ScanVerdict(u);
      assert u.slots[0..] == s.slots;
    } else if Enabled(u, Install) {
      OneMore(u);
    }
  }

  /// The static workers still to be tried are the ones from `from` round to `next`.
  ghost predicate NoneWaitsFrom(s: State, from: nat) {
    forall j :: 0 <= j < |s.stat| && s.stat[j].Waiting? ==>
      s.next < |s.stat| && RoundLeft(|s.stat|, s.next, j) > RoundLeft(|s.stat|, s.next, from)
  }

  lemma {:induction false} StaticVerdict(s: State)
    requires Inv(s) && s.pc.StatLoop? && s.lock.Free?
    ensures Verdict(s, s.pc.a, NoneWaitsFrom(s, s.pc.from) && (|s.slots| > 0 ==> DynamicBusy(s)))
    decreases RoundLeft(|s.stat|, s.next, s.pc.from)
  {
    var from := s.pc.from;
    NextInCycle(|s.stat|, from);
    OneMore(s);
    var t := Apply(s, TryStatic);
    if s.stat[from].Waiting? {
    } else if t.pc.StatLoop? {
      StaticVerdict(t);
      assert NoneWaitsFrom(s, from) <==> NoneWaitsFrom(t, t.pc.from);
    } else {
      assert NoneWaitsFrom(s, from);
      if |s.slots| > 0 {
        DynamicVerdict(t);
      }
    }
  }

  /// With no worker step in between, `Pool::run` hands the action back exactly when no static worker waits,
  /// no dynamic slot is free and no dynamic worker waits.
  lemma RunFailsExactlyWhenBusy(s: State, a: Action)
    requires Inv(s) && s.pc.Idle? && s.lock.Free?
    ensures Inv(Apply(s, Submit(a)))
    ensures var t := Undisturbed(Apply(s, Submit(a)));
            if NoneWaits(s.stat) && NoneWaits(s.slots) && s.free == [] then Rejects(s, t, a) else Accepts(s, t)
  {
    StepKeepsInv(s, Submit(a));
    var t := Apply(s, Submit(a));
    if |s.stat| > 0 {
      NextInCycle(|s.stat|, s.next);
      OneMore(t);
      if !s.stat[s.next].Waiting? {
        var u := Apply(t, TryStatic);
        StaticVerdict(u);
        assert NoneWaitsFrom(u, u.pc.from) <==> NoneWaits(s.stat);
      }
    } else if |s.slots| > 0 {
      DynamicVerdict(t);
    }
    assert s.free != [] ==> s.free[0] in s.free;
  }

  // ---------------------------------------------------------------- rounds

  /// `k` places after `n` on a ring of `size` places.
  function Cycle(size: nat, n: nat, k: nat): nat {
    if n + k < size then n + k else n + k - size
  }

  lemma CycleShift(size: nat, n: nat, k: nat)
    requires n < size && k + 1 < size
    ensures Cycle(size, Cycle(size, n, 1), k) == Cycle(size, n, k + 1) != n
    ensures Cycle(size, n, k + 1) < size
  {}

  /// The actions are submitted one after the other.
  ghost function SubmitAll(s: State, actions: seq<Action>): State
    requires Inv(s)
    decreases |actions|
  {
    if actions == [] || !s.pc.Idle? then s
    else
      StepKeepsInv(s, Submit(actions[0]));
      UndisturbedKeepsInv(Apply(s, Submit(actions[0])));
      SubmitAll(Undisturbed(Apply(s, Submit(actions[0]))), actions[1..])
  }

  lemma {:induction false} UndisturbedKeepsInv(s: State)
    requires Inv(s)
    ensures Inv(Undisturbed(s))
    decreases Measure(s) + 1
  {
    if !s.pc.InCall() || !Enabled(s, OwnEvent(s.pc)) {
    } else {
      StepKeepsInv(s, OwnEvent(s.pc));
      StepDecreases(s, OwnEvent(s.pc));
      MeasureNonNegative(s);
      MeasureNonNegative(Apply(s, OwnEvent(s.pc)));
      UndisturbedKeepsInv(Apply(s, OwnEvent(s.pc)));
    }
  }

  lemma NextTakes(s: State, a: Action)
    requires Inv(s) && s.pc.Idle? && |s.stat| > 0 && s.stat[s.next].Waiting?
    ensures Inv(Apply(s, Submit(a)))
    ensures Undisturbed(Apply(s, Submit(a)))
         == s.(stat := s.stat[s.next := Running(a)], next := Cycle(|s.stat|, s.next, 1), submitted := s.submitted + [a])
  {
    StepKeepsInv(s, Submit(a));
    NextInCycle(|s.stat|, s.next);
    OneMore(Apply(s, Submit(a)));
  }

  /// The workers from `next` on run `actions`, one each in order.
  ghost predicate TookTurns(stat: seq<Phase>, next: nat, actions: seq<Action>) {
    forall k :: 0 <= k < |actions| && Cycle(|stat|, next, k) < |stat| ==>
      stat[Cycle(|stat|, next, k)] == Running(actions[k])
  }

  lemma OneMoreTurn(stat: seq<Phase>, next: nat, actions: seq<Action>)
    requires 0 < |actions| <= |stat| && next < |stat| && stat[next] == Running(actions[0])
    requires TookTurns(stat, Cycle(|stat|, next, 1), actions[1..])
    ensures TookTurns(stat, next, actions)
  {
    var n := |stat|;
    forall k | 0 < k < |actions|
      ensures stat[Cycle(n, next, k)] == Running(actions[k])
    {
      CycleShift(n, next, k - 1);
      assert stat[Cycle(n, Cycle(n, next, 1), k - 1)] == Running(actions[1..][k - 1]);
    }
  }

  /// From `s` to `t` the workers from `next` on have taken `actions`, one each in order, and nothing else happened.
  ghost predicate Served(s: State, t: State, actions: seq<Action>) {
    && t.pc.Idle? && t.rejected == s.rejected && t.submitted == s.submitted + actions
    && |t.stat| == |s.stat| && t.next == Cycle(|s.stat|, s.next, |actions|)
    && TookTurns(t.stat, s.next, actions)
    && (forall j :: 0 <= j < |s.stat| && !s.stat[j].Waiting? ==> t.stat[j] == s.stat[j])
  }

  lemma OneMoreServed(s: State, t: State, u: State, actions: seq<Action>)
    requires actions != [] && |actions| <= |s.stat| && s.next < |s.stat| && s.stat[s.next].Waiting?
    requires t.stat == s.stat[s.next := Running(actions[0])] && t.next == Cycle(|s.stat|, s.next, 1)
    requires t.submitted == s.submitted + [actions[0]] && t.rejected == s.rejected
    requires Served(t, u, actions[1..])
    ensures Served(s, u, actions)
  {
    OneMoreTurn(u.stat, s.next, actions);
    AfterOneTurn(|s.stat|, s.next, actions);
  }

  lemma AfterOneTurn(size: nat, next: nat, actions: seq<Action>)
    requires actions != [] && |actions| <= size && next < size
    ensures actions == [actions[0]] + actions[1..]
    ensures Cycle(size, Cycle(size, next, 1), |actions| - 1) == Cycle(size, next, |actions|)
  {}

  /// Fairness: as long as the workers from `next` on wait, consecutive runs go to consecutive workers, so a round of
  /// as many runs as there are static workers gives each of them exactly one action.
  lemma {:induction false} ConsecutiveRuns(s: State, actions: seq<Action>)
    requires Inv(s) && s.pc.Idle? && |actions| <= |s.stat|
    requires forall k :: 0 <= k < |actions| ==> s.stat[Cycle(|s.stat|, s.next, k)].Waiting?
    ensures Served(s, SubmitAll(s, actions), actions)
    decreases |actions|
  {
    if actions == [] {
    } else {
      var n := |s.stat|;
      assert s.stat[Cycle(n, s.next, 0)].Waiting?;
      NextTakes(s, actions[0]);
      UndisturbedKeepsInv(Apply(s, Submit(actions[0])));
      var t := Undisturbed(Apply(s, Submit(actions[0])));
      forall k | 0 <= k < |actions| - 1
        ensures t.stat[Cycle(n, t.next, k)].Waiting?
      {
        CycleShift(n, s.next, k);
        assert s.stat[Cycle(n, s.next, k + 1)].Waiting?;
      }
      ConsecutiveRuns(t, actions[1..]);
      OneMoreServed(s, t, SubmitAll(s, actions), actions);
    }
  }
}
