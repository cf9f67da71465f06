/** The whole life of a tracked stream: its handles are counted, and it is forgotten once the last is dropped. */
module StreamLives {
  import opened ObservedStreams

  /// A stream nobody holds is due to be removed until it has been, and one that is held never was.
  ghost predicate DueOrGone(s: State, removed: set<nat>) {
    && (forall k :: k in removed ==> k in s.streams)
    && (forall k :: k in s.streams ==>
          && (s.streams[k].removal <==> s.streams[k].handles == 0 && k !in removed)
          && (k in removed ==> s.streams[k].handles == 0))
  }

  ghost function RemovedBy(e: Event): set<nat> {
    if e.Remove? then {e.k} else {}
  }

  lemma StepIsDueOrGone(s: State, e: Event, removed: set<nat>)
    requires Inv(s) && Enabled(s, e) && DueOrGone(s, removed)
    ensures DueOrGone(Apply(s, e), removed + RemovedBy(e))
  {}

  lemma FirstOrLater(es: seq<Event>)
    requires es != []
    ensures forall k :: Remove(k) in es <==> k in RemovedBy(es[0]) || Remove(k) in es[1..]
  {
    assert es == [es[0]] + es[1..];
  }

  lemma {:induction false} RunIsDueOrGone(s: State, es: seq<Event>, removed: set<nat>) returns (all: set<nat>)
    requires Inv(s) && CanRun(s, es) && DueOrGone(s, removed)
    ensures DueOrGone(Run(s, es), all)
    ensures forall k :: k in all <==> k in removed || Remove(k) in es
    decreases |es|
  {
    if es == [] {
      all := removed;
    } else {
      StepKeepsInv(s, es[0]);
      StepIsDueOrGone(s, es[0], removed);
      all := RunIsDueOrGone(Apply(s, es[0]), es[1..], removed + RemovedBy(es[0]));
      FirstOrLater(es);
    }
  }

  /// In every interleaving: once the last handle of a stream is dropped, its removal is due until it happens, and then
  /// it is not in the list; no stream is removed while somebody holds it.
  lemma DroppedIsRemoved(es: seq<Event>, k: nat)
    requires CanRun(EMPTY, es) && k in Run(EMPTY, es).streams
    ensures var s := Run(EMPTY, es);
            && (s.streams[k].handles == 0 && Remove(k) !in es ==> Enabled(s, Remove(k)))
            && (Remove(k) in es ==> s.streams[k].handles == 0 && k !in s.items)
            && (Enabled(s, Remove(k)) ==> k !in Apply(s, Remove(k)).items)
  {
    var all := RunIsDueOrGone(EMPTY, es, {});
    RunKeepsInv(EMPTY, es);
  }

  ghost predicate RunsTo(es: seq<Event>, s: State) {
    CanRun(EMPTY, es) && Run(EMPTY, es) == s
  }

  ghost predicate Reachable(s: State) {
    exists es :: RunsTo(es, s)
  }

  lemma {:induction false} OneEventMore(s: State, es: seq<Event>, e: Event)
    requires CanRun(s, es) && Enabled(Run(s, es), e)
    ensures CanRun(s, es + [e]) && Run(s, es + [e]) == Apply(Run(s, es), e)
    decreases |es|
  {
    if es == [] {
      assert es + [e] == [e] && CanRun(Apply(s, e), []);
    } else {
      OneEventMore(Apply(s, es[0]), es[1..], e);
      assert (es + [e])[1..] == es[1..] + [e];
    }
  }

  lemma ReachableStep(s: State, e: Event)
    requires Reachable(s) && Enabled(s, e)
    ensures Reachable(Apply(s, e))
  {
    var es :| RunsTo(es, s);
    OneEventMore(EMPTY, es, e);
    assert RunsTo(es + [e], Apply(s, e));
  }

  /// One stream is listed, and held so often.
  ghost function Held(n: nat): State {
    State(1, map[0 := Stream(n, n == 0, false)], {0}, {}, Accepting)
  }

  lemma {:induction false} HeldIsReachable(n: nat)
    requires n > 0
    ensures Reachable(Held(n))
  {
    if n == 1 {
      assert RunsTo([], EMPTY);
      ReachableStep(EMPTY, TakeKey);
      ReachableStep(Apply(EMPTY, TakeKey), List);
      assert Apply(Apply(EMPTY, TakeKey), List) == Held(1);
    } else {
      HeldIsReachable(n - 1);
      ReachableStep(Held(n - 1), Clone(0));
      assert Apply(Held(n - 1), Clone(0)) == Held(n);
    }
  }

  lemma {:induction false} HeldLess(n: nat, m: nat)
    requires m <= n && Reachable(Held(n))
    ensures Reachable(Held(m))
    decreases n - m
  {
    if m == n {
    } else {
      HeldLess(n, m + 1);
      ReachableStep(Held(m + 1), DropHandle(0));
      assert Apply(Held(m + 1), DropHandle(0)) == Held(m);
    }
  }

  /// For every number of handles there is a run in which a stream is tracked, held by so many, dropped by all of them,
  /// and then forgotten: the list is empty again.
  lemma TrackedIsForgotten(n: nat)
    requires n > 0
    ensures Reachable(Held(n)) && Reachable(Held(0))
    ensures Reachable(State(1, map[0 := Stream(0, false, false)], {}, {}, Accepting))
  {
    HeldIsReachable(n);
    HeldLess(n, 0);
    ReachableStep(Held(0), Remove(0));
    assert Apply(Held(0), Remove(0)) == State(1, map[0 := Stream(0, false, false)], {}, {}, Accepting);
  }

  /// The accepting thread visits each stream it drained once.
  lemma {:induction false} VisitedOnce(order: seq<nat>, items: set<nat>)
    requires Enumerates(order, items)
    ensures |order| == |items| && forall k :: k in order <==> k in items
  {
    if order == [] {
      assert items == {};
    } else {
      var n := |order| - 1;
      var k := order[n];
      assert order == order[..n] + [k];
      VisitedOnce(order[..n], items - {k});
      assert items == (items - {k}) + {k};
    }
  }

  /// How often a handle of `k` was cloned and dropped by those who hold it.
  ghost function Clones(es: seq<Event>, k: nat): nat {
    multiset(es)[Clone(k)]
  }

  ghost function Drops(es: seq<Event>, k: nat): nat {
    multiset(es)[DropHandle(k)]
  }

  lemma StepCounts(s: State, e: Event, k: nat)
    requires Inv(s) && Enabled(s, e) && k in s.streams
    ensures k in Apply(s, e).streams
    ensures Others(Apply(s, e), k)
         == Others(s, k) + (if e == Clone(k) then 1 else 0) - (if e == DropHandle(k) then 1 else 0)
  {}

  /// In every run the handles are counted right, whatever the accepting thread does with its own.
  lemma {:induction false} HandlesCounted(s: State, es: seq<Event>, k: nat)
    requires Inv(s) && CanRun(s, es) && k in s.streams
    ensures k in Run(s, es).streams
    ensures Others(Run(s, es), k) == Others(s, k) + Clones(es, k) - Drops(es, k)
    decreases |es|
  {
    if es == [] {
    } else {
      StepKeepsInv(s, es[0]);
      StepCounts(s, es[0], k);
      HandlesCounted(Apply(s, es[0]), es[1..], k);
      assert es == [es[0]] + es[1..];
    }
  }
}
