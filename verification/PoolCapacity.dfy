/** What the pool is able to do: all its workers can be busy at once, and one that times out gives up its slot. */
module PoolCapacity {
  import opened PoolProtocol
  import opened PoolInvariant
  import opened PoolSafety
  import Sums

  // ---------------------------------------------------------------- reaching a state

  ghost predicate RunsTo(s: State, es: seq<Event>, t: State) {
    CanRun(s, es) && Run(s, es) == t
  }

  ghost predicate Reaches(s: State, t: State) {
    exists es :: RunsTo(s, es, t)
  }

  lemma ReachesRefl(s: State)
    ensures Reaches(s, s)
  {
    assert RunsTo(s, [], s);
  }

  lemma RunsStep(s: State, es: seq<Event>, t: State, e: Event)
    requires RunsTo(s, es, t) && Enabled(t, e)
    ensures RunsTo(s, es + [e], Apply(t, e))
  {
    assert CanRun(Apply(t, e), []);
    RunConcat(s, es, [e]);
  }

  lemma ReachesStep(s: State, t: State, e: Event)
    requires Reaches(s, t) && Enabled(t, e)
    ensures Reaches(s, Apply(t, e))
  {
    var es :| RunsTo(s, es, t);
    RunsStep(s, es, t, e);
  }

  // ---------------------------------------------------------------- filling the pool

  /// `k` of `n` workers are at the first phase, the others at the second.
  ghost function Split(n: nat, k: nat, first: Phase, second: Phase): (q: seq<Phase>)
    ensures |q| == n && forall j :: 0 <= j < n ==> q[j] == if j < k then first else second
  {
    seq(n, j => if j < k then first else second)
  }

  lemma SplitMore(n: nat, k: nat, first: Phase, second: Phase)
    requires k < n
    ensures Split(n, k, first, second)[k := first] == Split(n, k + 1, first, second)
  {}

  ghost function Room(min: nat, max: nat): nat {
    if min < max then max - min else 0
  }

  /// The queue from slot `i` on.
  ghost function From(room: nat, i: nat): seq<nat>
    requires i <= room
  {
    Iota(room)[i..]
  }

  /// So many static workers wait.
  ghost function Awake(min: nat, max: nat, k: nat): State {
    State(Split(min, k, Waiting, Looping), 0, Split(Room(min, max), 0, Vacant, Vacant), From(Room(min, max), 0), Free,
          Idle, [], [], [])
  }

  lemma {:induction false} AllAwake(min: nat, max: nat, k: nat)
    requires (min > 0 || max > 0) && k <= min
    ensures Reaches(New(min, max), Awake(min, max, k))
  {
    if k == 0 {
      assert New(min, max) == Awake(min, max, 0);
      ReachesRefl(New(min, max));
    } else {
      AllAwake(min, max, k - 1);
      var s := Awake(min, max, k - 1);
      SplitMore(min, k - 1, Waiting, Looping);
      ReachesStep(New(min, max), s, Worker(StaticWorker(k - 1), Recv));
    }
  }

  /// So many static workers run an action, and the others wait.
  ghost function Given(min: nat, max: nat, k: nat, a: Action): State {
    State(Split(min, k, Running(a), Waiting), if k < min then k else 0, Split(Room(min, max), 0, Vacant, Vacant),
          From(Room(min, max), 0), Free, Idle, seq(k, _ => a), [], [])
  }

  lemma NextGiven(min: nat, max: nat, k: nat, a: Action)
    requires k < min
    ensures var t := Given(min, max, k, a).(submitted := seq(k, _ => a) + [a], pc := StatFirst(a));
            Enabled(t, TryStatic) && Apply(t, TryStatic) == Given(min, max, k + 1, a)
  {
    SplitMore(min, k, Running(a), Waiting);
    assert seq(k, _ => a) + [a] == seq(k + 1, _ => a);
    assert (k + 1) % min == if k + 1 < min then k + 1 else 0;
  }

  lemma {:induction false} AllGiven(min: nat, max: nat, k: nat, a: Action)
    requires (min > 0 || max > 0) && k <= min
    ensures Reaches(New(min, max), Given(min, max, k, a))
  {
    if k == 0 {
      AllAwake(min, max, min);
      assert Given(min, max, 0, a) == Awake(min, max, min);
    } else {
      AllGiven(min, max, k - 1, a);
      var s := Given(min, max, k - 1, a);
      ReachesStep(New(min, max), s, Submit(a));
      NextGiven(min, max, k - 1, a);
      ReachesStep(New(min, max), Apply(s, Submit(a)), TryStatic);
    }
  }

  lemma OneAttempt(u: State, a: Action, from: nat)
    requires u.pc == StatLoop(a, from) && u.next == 0 && from < |u.stat| && !u.stat[from].Waiting?
    ensures Enabled(u, TryStatic)
    ensures Apply(u, TryStatic) == if from + 1 == |u.stat| then AfterStatic(u, a) else u.(pc := StatLoop(a, from + 1))
  {
    assert (from + 1) % |u.stat| == if from + 1 == |u.stat| then 0 else from + 1;
  }

  /// Where all static workers are busy, an action is passed on after one round.
  lemma {:induction false} PassedOn(s: State, u: State, a: Action, from: nat)
    requires u.pc == StatLoop(a, from) && u.next == 0 && from < |u.stat|
    requires forall j :: 0 <= j < |u.stat| ==> !u.stat[j].Waiting?
    requires Reaches(s, u)
    ensures Reaches(s, AfterStatic(u, a))
    decreases |u.stat| - from
  {
    OneAttempt(u, a, from);
    ReachesStep(s, u, TryStatic);
    if from + 1 == |u.stat| {
    } else {
      PassedOn(s, u.(pc := StatLoop(a, from + 1)), a, from + 1);
    }
  }

  lemma DynamicAsked(s: State, t: State, a: Action)
    requires t.pc.Idle? && t.next == 0 && |t.slots| > 0
    requires forall j :: 0 <= j < |t.stat| ==> !t.stat[j].Waiting?
    requires Reaches(s, t)
    ensures Reaches(s, t.(submitted := t.submitted + [a], pc := WantLock(a)))
  {
    ReachesStep(s, t, Submit(a));
    var u := Apply(t, Submit(a));
    if |t.stat| > 0 {
      ReachesStep(s, u, TryStatic);
      assert 1 % |t.stat| == if |t.stat| == 1 then 0 else 1;
      PassedOn(s, Apply(u, TryStatic), a, if |t.stat| == 1 then 0 else 1);
    }
  }

  /// All static workers are busy, and so many slots hold a new worker.
  ghost function Grown(min: nat, max: nat, i: nat, a: Action): State
    requires i <= Room(min, max)
  {
    State(Split(min, min, Running(a), Waiting), 0, Split(Room(min, max), i, Starting(a), Vacant),
          From(Room(min, max), i), Free, Idle, seq(min + i, _ => a), [], [])
  }

  lemma {:induction false} AllGrown(min: nat, max: nat, i: nat, a: Action)
    requires (min > 0 || max > 0) && i <= Room(min, max)
    ensures Reaches(New(min, max), Grown(min, max, i, a))
  {
    if i == 0 {
      AllGiven(min, max, min, a);
      assert Grown(min, max, 0, a) == Given(min, max, min, a);
    } else {
      AllGrown(min, max, i - 1, a);
      OneMoreWorker(min, max, i - 1, a);
    }
  }

  lemma OneMoreWorker(min: nat, max: nat, i: nat, a: Action)
    requires (min > 0 || max > 0) && i < Room(min, max)
    requires Reaches(New(min, max), Grown(min, max, i, a))
    ensures Reaches(New(min, max), Grown(min, max, i + 1, a))
  {
    var s, t := New(min, max), Grown(min, max, i, a);
    DynamicAsked(s, t, a);
    var u := t.(submitted := t.submitted + [a], pc := WantLock(a));
    ReachesStep(s, u, TakeLock);
    var v := Apply(u, TakeLock);
    ReachesStep(s, v, Pop);
    var w := Apply(v, Pop);
    assert v.free[0] == i && v.free[1..] == From(Room(min, max), i + 1);
    ReachesStep(s, w, Install);
    SplitMore(Room(min, max), i, Starting(a), Vacant);
    assert seq(min + i, _ => a) + [a] == seq(min + i + 1, _ => a);
    assert Apply(w, Install) == Grown(min, max, i + 1, a);
  }

  lemma {:induction false} AllOne<T>(f: T -> nat, q: seq<T>)
    requires forall i :: 0 <= i < |q| ==> f(q[i]) == 1
    ensures Sums.Sum(f, q) == |q|
  {
    if q == [] {
    } else {
      AllOne(f, q[..|q| - 1]);
    }
  }

  /// The bound on concurrency is reached: for all sizes, some run of a new pool has `min` actions in progress (if
  /// `min >= max`) or `max` (otherwise), and hands none back.
  lemma BoundIsReached(min: nat, max: nat, a: Action) returns (es: seq<Event>)
    requires min > 0 || max > 0
    ensures CanRun(New(min, max), es)
    ensures var s := Run(New(min, max), es);
            && InProgress(s) == (if min < max then max else min) == |s.submitted|
            && s.rejected == [] && s.pc.Idle?
  {
    var room := Room(min, max);
    AllGrown(min, max, room, a);
    var s := Grown(min, max, room, a);
    es :| RunsTo(New(min, max), es, s);
    AllOne(Busy(), s.stat);
    AllOne(Busy(), s.slots);
  }

  // ---------------------------------------------------------------- a slot is given back

  ghost function GivingBack(i: nat): seq<Event> {
    [] + [Worker(Slot(i), Timeout)] + [Worker(Slot(i), Acquire)] + [Worker(Slot(i), Push)] + [Worker(Slot(i), Exit)]
  }

  /// From every state in which the worker of slot `i` waits and the lock is free, that worker alone can time out and
  /// give its slot back, which was not in the queue before, and then stop.
  lemma TiredWorkerGivesBack(s: State, i: nat)
    requires Inv(s) && i < |s.slots| && s.slots[i].Waiting? && s.lock.Free?
    ensures i !in s.free
    ensures RunsTo(s, GivingBack(i), s.(slots := s.slots[i := Exited], free := s.free + [i]))
    ensures forall e :: e in GivingBack(i) ==> e.Worker? && e.w == Slot(i)
  {
    var w := Slot(i);
    var t := s.(slots := s.slots[i := Finishing]);
    var u := s.(slots := s.slots[i := Pushing], lock := Finisher(i));
    var v := s.(slots := s.slots[i := Exiting], free := s.free + [i]);
    assert RunsTo(s, [], s);
    RunsStep(s, [], s, Worker(w, Timeout));
    assert Apply(s, Worker(w, Timeout)) == t;
    RunsStep(s, [] + [Worker(w, Timeout)], t, Worker(w, Acquire));
    assert Apply(t, Worker(w, Acquire)) == u;
    RunsStep(s, [] + [Worker(w, Timeout)] + [Worker(w, Acquire)], u, Worker(w, Push));
    assert Apply(u, Worker(w, Push)) == v;
    RunsStep(s, [] + [Worker(w, Timeout)] + [Worker(w, Acquire)] + [Worker(w, Push)], v, Worker(w, Exit));
  }
}
