/**
 The list of tracked streams.  A stream lives while handles to it exist; the thread that drops the last one removes it
 from the list a little later.  Handles are cloned and dropped by any thread, tracking and the final drain are done by
 the accepting thread, and all of it interleaves.
 */
module ObservedStreams {

  /// A stream: how many handles keep it alive, whether its removal from the list is still to come, and whether it was
  /// shut down.
  datatype Stream = Stream(handles: nat, removal: bool, closed: bool)

  /// What the accepting thread is in the middle of.
  datatype Pc =
    | Accepting
    | Tracking(key: nat)                    // took a key, has not listed the stream
    | Closing(left: seq<nat>)               // visiting what it drained
    | Visiting(key: nat, left: seq<nat>, told: bool)  // holds a handle of its own, has called `shutdown` or not

  datatype State = State(
    nextKey: nat,
    streams: map<nat, Stream>,
    items: set<nat>,      // the keys in the list
    drained: set<nat>,    // history: the keys taken out by `drain`
    pc: Pc
  )

  datatype Event =
    | TakeKey
    | List
    | Clone(k: nat)
    | DropHandle(k: nat)
    | Remove(k: nat)
    | Drain(order: seq<nat>)
    | Upgrade
    | Shutdown
    | Release

  const EMPTY := State(0, map[], {}, {}, Accepting)

  /// The handles to `k` held outside the accepting thread's own visit.
  function Others(s: State, k: nat): int
    requires k in s.streams
  {
    s.streams[k].handles - if s.pc.Visiting? && s.pc.key == k then 1 else 0
  }

  /// `order` visits every key of the list once.
  predicate Enumerates(order: seq<nat>, items: set<nat>) {
    && (forall i :: 0 <= i < |order| ==> order[i] in items)
    && (forall i, j :: 0 <= i < j < |order| ==> order[i] != order[j])
    && (forall k :: k in items ==> k in order)
  }

  predicate Enabled(s: State, e: Event) {
    match e
    case TakeKey => s.pc.Accepting?
    case List => s.pc.Tracking?
    case Clone(k) => k in s.streams && s.pc != Tracking(k) && Others(s, k) > 0
    case DropHandle(k) => k in s.streams && s.pc != Tracking(k) && Others(s, k) > 0
    case Remove(k) => k in s.streams && s.streams[k].removal
    case Drain(order) => s.pc.Accepting? && Enumerates(order, s.items)
    case Upgrade => s.pc.Closing? && s.pc.left != [] && s.pc.left[0] in s.streams
    case Shutdown => s.pc.Visiting? && !s.pc.told && s.pc.key in s.streams
    case Release => s.pc.Visiting? && s.pc.told && s.pc.key in s.streams && s.streams[s.pc.key].handles > 0
  }

  /// Dropping a handle; with the last one the stream is dropped, and its removal from the list is due.
  function OneLess(stream: Stream): Stream
    requires stream.handles > 0
  {
    stream.(handles := stream.handles - 1, removal := stream.handles == 1)
  }

  function Apply(s: State, e: Event): State
    requires Enabled(s, e)
  {
    match e
    case TakeKey =>
      s.(nextKey := s.nextKey + 1, streams := s.streams[s.nextKey := Stream(1, false, false)],
         pc := Tracking(s.nextKey))
    case List => s.(items := s.items + {s.pc.key}, pc := Accepting)
    case Clone(k) => s.(streams := s.streams[k := s.streams[k].(handles := s.streams[k].handles + 1)])
    case DropHandle(k) => s.(streams := s.streams[k := OneLess(s.streams[k])])
    case Remove(k) => s.(items := s.items - {k}, streams := s.streams[k := s.streams[k].(removal := false)])
    case Drain(order) => s.(items := {}, drained := s.drained + s.items, pc := Closing(order))
    case Upgrade =>
      var k, left := s.pc.left[0], s.pc.left[1..];
      var stream := s.streams[k];
      if stream.handles == 0 then s.(pc := Closing(left))
      else s.(streams := s.streams[k := stream.(handles := stream.handles + 1)], pc := Visiting(k, left, false))
    case Shutdown =>
      s.(streams := s.streams[s.pc.key := s.streams[s.pc.key].(closed := true)], pc := s.pc.(told := true))
    case Release =>
      s.(streams := s.streams[s.pc.key := OneLess(s.streams[s.pc.key])], pc := Closing(s.pc.left))
  }

  // ---------------------------------------------------------------- the invariant

  ghost predicate KeysUsed(s: State) {
    forall k: nat :: k in s.streams <==> k < s.nextKey
  }

  ghost predicate Listed(s: State) {
    && (forall k :: k in s.items || k in s.drained ==> k in s.streams)
    && s.items !! s.drained
    && (forall k :: k in s.streams && s.streams[k].handles > 0 && s.pc != Tracking(k) && k !in s.drained ==>
          k in s.items)
    && (forall k :: k in s.items ==> s.streams[k].handles > 0 || s.streams[k].removal)
    && (forall k :: k in s.streams && s.streams[k].removal ==> s.streams[k].handles == 0)
  }

  function Left(pc: Pc): seq<nat> {
    match pc
    case Closing(left) => left
    case Visiting(_, left, _) => left
    case _ => []
  }

  ghost predicate PcFits(s: State) {
    && (forall k :: k in Left(s.pc) ==> k in s.drained)
    && (s.drained != {} ==> s.pc.Closing? || s.pc.Visiting?)
    && match s.pc
       case Tracking(k) => k in s.streams && s.streams[k] == Stream(1, false, false) && k !in s.items
       case Visiting(k, _, told) =>
         k in s.drained && k in s.streams && s.streams[k].handles > 0 && (told ==> s.streams[k].closed)
       case _ => true
  }

  /// A drained stream has been shut down, has no handle left, or is still to be seen to.
  ghost predicate SeenTo(s: State) {
    forall k :: k in s.drained && k in s.streams ==>
      || s.streams[k].closed || s.streams[k].handles == 0
      || k in Left(s.pc) || (s.pc.Visiting? && s.pc.key == k)
  }

  ghost predicate Inv(s: State) {
    KeysUsed(s) && Listed(s) && PcFits(s) && SeenTo(s)
  }

  lemma UpgradeKeepsInv(s: State)
    requires Inv(s) && Enabled(s, Upgrade)
    ensures Inv(Apply(s, Upgrade))
  {
    var k, left := s.pc.left[0], s.pc.left[1..];
    assert forall x :: x in s.pc.left <==> x == k || x in left;
    assert k in Left(s.pc);
  }

  lemma ReleaseKeepsInv(s: State)
    requires Inv(s) && Enabled(s, Release)
    ensures Inv(Apply(s, Release))
  {}

  lemma HandlesKeepInv(s: State, e: Event)
    requires Inv(s) && Enabled(s, e) && (e.Clone? || e.DropHandle? || e.Remove?)
    ensures Inv(Apply(s, e))
  {}

  lemma DrainKeepsInv(s: State, order: seq<nat>)
    requires Inv(s) && Enabled(s, Drain(order))
    ensures Inv(Apply(s, Drain(order)))
  {}

  lemma StepKeepsInv(s: State, e: Event)
    requires Inv(s) && Enabled(s, e)
    ensures Inv(Apply(s, e))
  {
    match e
    case Upgrade => UpgradeKeepsInv(s);
    case Release => ReleaseKeepsInv(s);
    case Drain(order) => DrainKeepsInv(s, order);
    case Clone(_) => HandlesKeepInv(s, e);
    case DropHandle(_) => HandlesKeepInv(s, e);
    case Remove(_) => HandlesKeepInv(s, e);
    case _ =>
  }

  predicate CanRun(s: State, es: seq<Event>)
    decreases |es|
  {
    es == [] || (Enabled(s, es[0]) && CanRun(Apply(s, es[0]), es[1..]))
  }

  function Run(s: State, es: seq<Event>): State
    requires CanRun(s, es)
    decreases |es|
  {
    if es == [] then s else Run(Apply(s, es[0]), es[1..])
  }

  lemma {:induction false} RunKeepsInv(s: State, es: seq<Event>)
    requires Inv(s) && CanRun(s, es)
    ensures Inv(Run(s, es))
    ensures s.nextKey <= Run(s, es).nextKey
    decreases |es|
  {
    if es == [] {
    } else {
      StepKeepsInv(s, es[0]);
      RunKeepsInv(Apply(s, es[0]), es[1..]);
    }
  }

  // ---------------------------------------------------------------- what it promises

  /// In every interleaving: a live stream that was not drained is listed, and while no removal is due and no stream is
  /// being tracked, the list is exactly those streams.
  lemma ListIsExact(es: seq<Event>)
    requires CanRun(EMPTY, es)
    ensures var s := Run(EMPTY, es);
            && (forall k :: k in s.streams && s.streams[k].handles > 0 && s.pc != Tracking(k) && k !in s.drained ==>
                  k in s.items)
            && ((forall k :: k in s.streams ==> !s.streams[k].removal) && !s.pc.Tracking? ==>
                  s.items == set k | k in s.streams && s.streams[k].handles > 0 && k !in s.drained)
  {
    RunKeepsInv(EMPTY, es);
  }

  /// In every interleaving: a new key was never used before, and a removal takes at most its own entry, of a stream
  /// nobody holds any more.
  lemma KeysAndRemovals(es: seq<Event>, e: Event)
    requires CanRun(EMPTY, es) && Enabled(Run(EMPTY, es), e)
    ensures var s := Run(EMPTY, es);
            var t := Apply(s, e);
            && (e.TakeKey? ==> s.nextKey !in s.streams && s.nextKey !in s.items && s.nextKey !in s.drained)
            && (e.Remove? ==> s.streams[e.k].handles == 0 && s.items - t.items <= {e.k} && t.items <= s.items)
            && (!e.Remove? && !e.Drain? ==> s.items <= t.items)
  {
    RunKeepsInv(EMPTY, es);
  }

  lemma AllSeenTo(s: State)
    requires Inv(s) && s.pc == Closing([])
    ensures forall k :: k in s.drained ==> k in s.streams && (s.streams[k].handles > 0 ==> s.streams[k].closed)
    ensures s.items == {} ==> forall k :: k in s.streams && s.streams[k].handles > 0 ==> s.streams[k].closed
  {
    assert forall k :: k !in Left(s.pc);
  }

  /// When the accepting thread has seen to all it drained, every drained stream still held has been shut down.
  lemma StopReachesAll(es: seq<Event>)
    requires CanRun(EMPTY, es) && Run(EMPTY, es).pc == Closing([])
    ensures var s := Run(EMPTY, es);
            && (forall k :: k in s.drained ==> k in s.streams && (s.streams[k].handles > 0 ==> s.streams[k].closed))
            && (s.items == {} ==> forall k :: k in s.streams && s.streams[k].handles > 0 ==> s.streams[k].closed)
  {
    RunKeepsInv(EMPTY, es);
    AllSeenTo(Run(EMPTY, es));
  }

  // ---------------------------------------------------------------- the code of the accepting thread

  class ObservedStreamList {
    var nextKey: nat
    var streams: map<nat, Stream>
    var items: set<nat>
    var drained: set<nat>
    var pc: Pc

    function S(): State
      reads this
    {
      State(nextKey, streams, items, drained, pc)
    }

    constructor ()
      ensures S() == EMPTY && Inv(S())
    {
      nextKey, streams, items, drained, pc := 0, map[], {}, {}, Accepting;
    }

    /// Other threads clone handles, drop them, and remove the streams they dropped last.
    method Elsewhere()
      requires Inv(S())
      modifies this
      ensures Inv(S()) && pc == old(pc) && nextKey == old(nextKey) && drained == old(drained)
      ensures items <= old(items)
    {
      var n: int := *;
      while n > 0
        invariant Inv(S()) && pc == old(pc) && nextKey == old(nextKey) && drained == old(drained)
        invariant items <= old(items)
      {
        var e: Event := *;
        if (e.Clone? || e.DropHandle? || e.Remove?) && Enabled(S(), e) {
          StepKeepsInv(S(), e);
          var t := Apply(S(), e);
          streams, items := t.streams, t.items;
        }
        n := n - 1;
      }
    }

    /// `dropped`
    method Dropped(key: nat)
      requires Inv(S()) && key in streams && streams[key].removal
      modifies this
      ensures Inv(S()) && S() == Apply(old(S()), Remove(key))
    {
      StepKeepsInv(S(), Remove(key));
      items := items - {key};
      streams := streams[key := streams[key].(removal := false)];
    }

    /// `track`: whatever happens meanwhile, the new stream is listed under a key of its own, with one handle.
    method Track() returns (key: nat)
      requires Inv(S()) && pc.Accepting?
      modifies this
      ensures Inv(S()) && pc.Accepting?
      ensures key !in old(streams) && key in items && key in streams && streams[key].handles == 1
    {
      StepKeepsInv(S(), TakeKey);
      key := nextKey;
      nextKey := nextKey + 1;
      streams := streams[key := Stream(1, false, false)];
      pc := Tracking(key);
      Elsewhere();
      StepKeepsInv(S(), List);
      items := items + {key};
      pc := Accepting;
    }

    /// `drain`
    method DrainList() returns (pending: seq<nat>)
      requires Inv(S()) && pc.Accepting?
      modifies this
      ensures Inv(S()) && items == {} && pc == Closing(pending) && nextKey == old(nextKey)
      ensures Enumerates(pending, old(items)) && drained == old(drained) + old(items)
    {
      pending := Enumerate(items);
      StepKeepsInv(S(), Drain(pending));
      drained := drained + items;
      items := {};
      pc := Closing(pending);
    }

    /// The end of `accept_connections`: every stream that was ever tracked and that somebody still holds is shut down.
    method Stop()
      requires Inv(S()) && pc.Accepting?
      modifies this
      ensures Inv(S()) && items == {} && pc == Closing([]) && nextKey == old(nextKey)
      ensures forall k: nat :: k < nextKey ==> k in streams && (streams[k].handles > 0 ==> streams[k].closed)
    {
      Elsewhere();
      var left := DrainList();
      while left != []
        invariant Inv(S()) && pc == Closing(left) && items == {} && nextKey == old(nextKey)
        decreases |left|
      {
        assert left == [left[0]] + left[1..];
        Visit(left[0], left[1..]);
        left := left[1..];
      }
      AllSeenTo(S());
    }

    /// One round of the loop over the drained streams.
    method Visit(key: nat, left: seq<nat>)
      requires Inv(S()) && pc.Closing? && pc.left == [key] + left
      modifies this
      ensures Inv(S()) && pc == Closing(left) && items <= old(items) && nextKey == old(nextKey)
    {
      Elsewhere();
      assert key in Left(pc) && pc.left[1..] == left;
      StepKeepsInv(S(), Upgrade);
      if streams[key].handles == 0 {
        pc := Closing(left);
        return;
      }
      streams := streams[key := streams[key].(handles := streams[key].handles + 1)];
      pc := Visiting(key, left, false);
      ShutDown(key, left);
    }

    /// A stream the upgrade got hold of is shut down, and the handle given up.
    method ShutDown(key: nat, left: seq<nat>)
      requires Inv(S()) && pc == Visiting(key, left, false)
      modifies this
      ensures Inv(S()) && pc == Closing(left) && items <= old(items) && nextKey == old(nextKey)
    {
      Elsewhere();
      StepKeepsInv(S(), Shutdown);
      streams := streams[key := streams[key].(closed := true)];
      pc := Visiting(key, left, true);
      Elsewhere();
      StepKeepsInv(S(), Release);
      streams := streams[key := OneLess(streams[key])];
      pc := Closing(left);
    }

    /// The keys of a map, in an order of the map's choosing.
    method Enumerate(keys: set<nat>) returns (order: seq<nat>)
      ensures Enumerates(order, keys)
    {
      order := [];
      var left := keys;
      while left != {}
        invariant left <= keys && (forall k :: k in keys ==> (k in left <==> k !in order))
        invariant forall i :: 0 <= i < |order| ==> order[i] in keys
        invariant forall i, j :: 0 <= i < j < |order| ==> order[i] != order[j]
        decreases left
      {
        var k: nat :| k in left;
        left := left - {k};
        order := order + [k];
      }
    }
  }
}
