/**
 The two-tier thread pool as a step system.

 One thread submits actions (`run` takes the pool by exclusive reference); every worker is a thread of its own.
 A state records the phase of each worker, the queue of free dynamic slots with the lock that guards it, and how far
 the submitting thread has got inside `run` or `drop`.  An event is one atomic step of one thread, and a run of the
 pool is any sequence of enabled events, so statements about runs cover every interleaving.

 The zero-capacity channel of a worker is a rendezvous: `try_send` succeeds exactly when the worker is `Waiting`.
 */
module PoolProtocol {

  /// The identity of a submitted closure.
  type Action = nat

  /// Where a worker thread is.  `Vacant` is a dynamic slot that never held a worker.
  datatype Phase =
    | Vacant
    | Starting(a: Action)  // spawned with its first action, which it has not begun
    | Running(a: Action)   // executing an action
    | Looping              // between two actions, not yet blocked on the channel
    | Waiting              // blocked on the channel
    | Finishing            // has left the loop, does not hold the lock on the free slots
    | Pushing              // holds that lock, has not pushed its slot index
    | Exiting              // will not touch shared state any more
    | Exited               // joinable
  {
    /// The worker has been given action `x` and has not finished it.
    predicate Holds(x: Action) {
      match this
      case Starting(a) => a == x
      case Running(a) => a == x
      case _ => false
    }

    /// The slot of a worker in this phase may be handed out again.
    predicate PastPush() {
      Vacant? || Exiting? || Exited?
    }

    /// Dropping a worker in this phase returns at once.
    predicate Joinable() {
      Vacant? || Exited?
    }

    /// An upper bound on the steps this thread takes without being given new work.
    function Rank(): nat {
      match this
      case Starting(_) => 7
      case Running(_) => 6
      case Looping => 5
      case Waiting => 4
      case Finishing => 3
      case Pushing => 2
      case Exiting => 1
      case _ => 0
    }
  }

  /// Who holds the lock on the queue of free slots.
  datatype Lock = Free | Submitter | Finisher(slot: nat)

  /// How far the submitting thread has got.
  datatype Pc =
    | Idle
    | StatFirst(a: Action)             // about to try the static worker `next`
    | StatLoop(a: Action, from: nat)   // about to try the static worker `from`
    | WantLock(a: Action)              // entering `try_add_worker`
    | Holding(a: Action)               // holds the lock, about to pop a free slot
    | Replacing(slot: nat, spawned: Phase)  // spawned a worker for `slot`, dropping what the slot held, under the lock
    | Scan(a: Action, i: nat)          // looking for a waiting dynamic worker
    | DropDynamic(k: nat)              // sender `k` gone, joining dynamic worker `k`
    | DropStatic(k: nat)               // the same for static workers
    | Gone
  {
    /// The submitting thread, or the worker it has just spawned, holds action `x`.
    predicate Holds(x: Action) {
      match this
      case StatFirst(a) => a == x
      case StatLoop(a, _) => a == x
      case WantLock(a) => a == x
      case Holding(a) => a == x
      case Replacing(_, spawned) => spawned.Holds(x)
      case Scan(a, _) => a == x
      case _ => false
    }

    predicate InCall() {
      !Idle? && !InDrop()
    }

    predicate InDrop() {
      DropDynamic? || DropStatic? || Gone?
    }
  }

  datatype State = State(
    stat: seq<Phase>,        // the static workers
    next: nat,               // where the round robin goes on
    slots: seq<Phase>,       // the dynamic workers
    free: seq<nat>,          // the queue of free dynamic slots
    lock: Lock,
    pc: Pc,
    submitted: seq<Action>,  // history: every action given to `run`
    rejected: seq<Action>,   // history: handed back in a `PoolError`
    executed: seq<Action>    // history: in order of completion
  )

  datatype Who = StaticWorker(j: nat) | Slot(i: nat) | Fresh

  datatype Move = Begin | Complete | Recv | Timeout | Disconnect | Acquire | Push | Exit

  datatype Event =
    | Submit(a: Action)
    | TryStatic
    | TakeLock
    | Pop
    | Install
    | Probe
    | BeginDrop
    | Joined
    | Worker(w: Who, m: Move)

  // ---------------------------------------------------------------- creation

  function Iota(n: nat): (q: seq<nat>)
    ensures |q| == n && forall k :: 0 <= k < n ==> q[k] == k
  {
    seq(n, k => k)
  }

  /// A pool of `min` static workers that may grow to `max` workers.
  function New(min: nat, max: nat): State
    requires min > 0 || max > 0
  {
    var room := if min < max then max - min else 0;
    State(seq(min, _ => Looping), 0, seq(room, _ => Vacant), Iota(room), Free, Idle, [], [], [])
  }

  // ---------------------------------------------------------------- workers

  predicate Present(s: State, w: Who) {
    match w
    case StaticWorker(j) => j < |s.stat|
    case Slot(i) => i < |s.slots|
    case Fresh => s.pc.Replacing?
  }

  function PhaseOf(s: State, w: Who): Phase
    requires Present(s, w)
  {
    match w
    case StaticWorker(j) => s.stat[j]
    case Slot(i) => s.slots[i]
    case Fresh => s.pc.spawned
  }

  function WithPhase(s: State, w: Who, p: Phase): State
    requires Present(s, w)
  {
    match w
    case StaticWorker(j) => s.(stat := s.stat[j := p])
    case Slot(i) => s.(slots := s.slots[i := p])
    case Fresh => s.(pc := s.pc.(spawned := p))
  }

  /// The slot index captured by the `finished` callback of a dynamic worker.
  function IndexOf(s: State, w: Who): nat
    requires Present(s, w) && !w.StaticWorker?
  {
    if w.Fresh? then s.pc.slot else w.i
  }

  /// The pool has dropped the sending half of the worker's channel.
  predicate SenderGone(s: State, w: Who) {
    match w
    case StaticWorker(j) => s.pc.Gone? || (s.pc.DropStatic? && j <= s.pc.k)
    case Slot(i) =>
      || s.pc.Gone? || s.pc.DropStatic?
      || (s.pc.DropDynamic? && i <= s.pc.k)
      || (s.pc.Replacing? && i == s.pc.slot)
    case Fresh => false
  }

  predicate CanMove(s: State, w: Who, m: Move) {
    && Present(s, w)
    && var p := PhaseOf(s, w);
       match m
       case Begin => p.Starting?
       case Complete => p.Running?
       case Recv => p.Looping?
       case Timeout => p.Waiting? && !w.StaticWorker?
       case Disconnect => p.Waiting? && SenderGone(s, w)
       case Acquire => p.Finishing? && !w.StaticWorker? && s.lock.Free?
       case Push => p.Pushing? && !w.StaticWorker?
       case Exit => p.Exiting?
  }

  function MoveWorker(s: State, w: Who, m: Move): State
    requires CanMove(s, w, m)
  {
    match m
    case Begin => WithPhase(s, w, Running(PhaseOf(s, w).a))
    case Complete => WithPhase(s, w, Looping).(executed := s.executed + [PhaseOf(s, w).a])
    case Recv => WithPhase(s, w, Waiting)
    case Timeout => WithPhase(s, w, Finishing)
    case Disconnect => WithPhase(s, w, if w.StaticWorker? then Exiting else Finishing)
    case Acquire => WithPhase(s, w, Pushing).(lock := Finisher(IndexOf(s, w)))
    case Push => WithPhase(s, w, Exiting).(lock := Free, free := s.free + [IndexOf(s, w)])
    case Exit => WithPhase(s, w, Exited)
  }

  // ---------------------------------------------------------------- the submitting thread

  /// What `Pool::run` does once the static pool, if any, has handed the action back.
  function AfterStatic(s: State, a: Action): State {
    if |s.slots| > 0 then s.(pc := WantLock(a))
    else s.(pc := Idle, rejected := s.rejected + [a])
  }

  predicate Enabled(s: State, e: Event) {
    match e
    case Submit(_) => s.pc.Idle?
    case TryStatic =>
      || (s.pc.StatFirst? && s.next < |s.stat|)
      || (s.pc.StatLoop? && s.pc.from < |s.stat|)
    case TakeLock => s.pc.WantLock? && s.lock.Free?
    case Pop => s.pc.Holding?
    case Install => s.pc.Replacing? && s.pc.slot < |s.slots| && s.slots[s.pc.slot].Joinable()
    case Probe => s.pc.Scan?
    case BeginDrop => s.pc.Idle?
    case Joined =>
      || (s.pc.DropDynamic? && (s.pc.k < |s.slots| ==> s.slots[s.pc.k].Joinable()))
      || (s.pc.DropStatic? && (s.pc.k < |s.stat| ==> s.stat[s.pc.k].Joinable()))
    case Worker(w, m) => CanMove(s, w, m)
  }

  function Apply(s: State, e: Event): State
    requires Enabled(s, e)
  {
    match e
    case Submit(a) =>
      var s' := s.(submitted := s.submitted + [a]);
      if |s.stat| > 0 then s'.(pc := StatFirst(a)) else AfterStatic(s', a)
    case TryStatic => ApplyTryStatic(s)
    case TakeLock => s.(lock := Submitter, pc := Holding(s.pc.a))
    case Pop =>
      if s.free == [] then s.(lock := Free, pc := Scan(s.pc.a, 0))
      else s.(free := s.free[1..], pc := Replacing(s.free[0], Starting(s.pc.a)))
    case Install => s.(slots := s.slots[s.pc.slot := s.pc.spawned], lock := Free, pc := Idle)
    case Probe =>
      var i := s.pc.i;
      if i >= |s.slots| then s.(rejected := s.rejected + [s.pc.a], pc := Idle)
      else if s.slots[i].Waiting? then s.(slots := s.slots[i := Running(s.pc.a)], pc := Idle)
      else s.(pc := Scan(s.pc.a, i + 1))
    case BeginDrop => s.(pc := DropDynamic(0))
    case Joined =>
      if s.pc.DropDynamic? then
        s.(pc := if s.pc.k < |s.slots| then DropDynamic(s.pc.k + 1) else DropStatic(0))
      else
        s.(pc := if s.pc.k < |s.stat| then DropStatic(s.pc.k + 1) else Gone)
    case Worker(w, m) => MoveWorker(s, w, m)
  }

  /// One attempt of the round robin of `Static::run`.
  function ApplyTryStatic(s: State): State
    requires Enabled(s, TryStatic)
  {
    var size := |s.stat|;
    if s.pc.StatFirst? then
      if s.stat[s.next].Waiting? then
        s.(stat := s.stat[s.next := Running(s.pc.a)], next := (s.next + 1) % size, pc := Idle)
      else
        s.(pc := StatLoop(s.pc.a, (s.next + 1) % size))
    else
      var from := s.pc.from;
      if s.stat[from].Waiting? then
        s.(stat := s.stat[from := Running(s.pc.a)], next := (from + 1) % size, pc := Idle)
      else if (from + 1) % size == s.next then
        AfterStatic(s, s.pc.a)
      else
        s.(pc := StatLoop(s.pc.a, (from + 1) % size))
  }

  // ---------------------------------------------------------------- runs

  predicate CanRun(s: State, es: seq<Event>)
    decreases |es|
  {
    es == [] || (Enabled(s, es[0]) && CanRun(Apply(s, es[0]), es[1..]))
  }

  function Run(s: State, es: seq<Event>): State
    requires CanRun(s, es)
    decreases |es|
  {
    if es == [] then s else Run(Apply(s, es[0]), es[1..])
  }
}
