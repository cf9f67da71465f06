/** Writing to a socket that takes what it likes, when it likes: what goes out, and how long it takes. */
module PolledWrites {
  import opened Bytes

  // ---------------------------------------------------------------- what the outside does

  datatype Socket = Accepts(n: nat) | WouldBlock | Broken

  /// An event of the poller: its key, whether it says the stream is writable, and what the socket does if asked then.
  datatype PollEvent = PollEvent(key: nat, writable: bool, socket: Socket)

  datatype Found = PollFails | Nothing(stopped: bool) | Events(events: seq<PollEvent>)

  /// One wait of the poller: how long it took, in nanoseconds, and what it found.
  datatype Poll = Poll(waited: nat, found: Found)

  datatype IoError = NotConnected | TimedOut | Other

  /// What a call comes to.  `Unfinished` stands for a call the outside has not let return yet.
  datatype Io = Ok(n: nat) | Err(error: IoError) | Unfinished

  /// `sent` bytes of `buffer` have gone out, after what went out before.
  ghost predicate Sent(before: Text, now: Text, buffer: Text, sent: nat) {
    sent <= |buffer| && now == before + buffer[..sent]
  }

  ghost predicate SentPrefix(before: Text, now: Text, buffer: Text) {
    exists sent: nat :: Sent(before, now, buffer, sent)
  }

  lemma SentMore(before: Text, now: Text, buffer: Text, sent: nat, more: nat)
    requires Sent(before, now, buffer, sent) && sent + more <= |buffer|
    ensures Sent(before, now + buffer[sent..][..more], buffer, sent + more)
  {
    assert buffer[..sent] + buffer[sent..][..more] == buffer[..sent + more];
    assert before + buffer[..sent] + buffer[sent..][..more] == before + (buffer[..sent] + buffer[sent..][..more]);
  }

  // ---------------------------------------------------------------- the course of a write

  function Min(a: nat, b: nat): nat {
    if a <= b then a else b
  }

  /// What the events of one wait do to a write: so many bytes are accepted at most, or the socket fails.
  datatype Step = Moves(n: nat) | Breaks

  function StepOf(events: seq<PollEvent>): Step {
    if events == [] then Moves(0)
    else if events[0].key != 1 || !events[0].writable then StepOf(events[1..])
    else
      match events[0].socket
      case Accepts(n) => Moves(n)
      case WouldBlock => Moves(0)
      case Broken => Breaks
  }

  datatype Ending = Whole | Fault(error: IoError) | Waiting

  /// How a write ends, after how many waits, and how many bytes have gone out.
  datatype Course = Course(end: Ending, polls: nat, sent: nat)

  function CourseOf(left: nat, script: seq<Poll>): (c: Course)
    ensures c.polls <= |script| && c.sent <= left && (c.end.Whole? <==> c.sent == left)
    ensures c.end.Waiting? ==> c.polls == |script|
    decreases |script|
  {
    if left == 0 then Course(Whole, 0, 0)
    else if script == [] then Course(Waiting, 0, 0)
    else
      match script[0].found
      case PollFails => Course(Fault(Other), 1, 0)
      case Nothing(stopped) => Course(Fault(if stopped then NotConnected else TimedOut), 1, 0)
      case Events(events) =>
        match StepOf(events)
        case Breaks => Course(Fault(Other), 1, 0)
        case Moves(n) =>
          var m := Min(n, left);
          var c := CourseOf(left - m, script[1..]);
          Course(c.end, 1 + c.polls, m + c.sent)
  }

  /// The events say at which place the stream is writable first.
  ghost predicate FirstWritable(events: seq<PollEvent>, i: nat) {
    && i < |events| && events[i].key == 1 && events[i].writable
    && forall j :: 0 <= j < i ==> events[j].key != 1 || !events[j].writable
  }

  /// What the socket does where the stream is writable first decides the step; nothing else does.
  lemma {:induction false} StepExactly(events: seq<PollEvent>)
    ensures StepOf(events).Breaks? <==> exists i: nat :: FirstWritable(events, i) && events[i].socket.Broken?
    ensures forall i: nat, n: nat :: FirstWritable(events, i) && events[i].socket == Accepts(n) ==>
              StepOf(events) == Moves(n)
    ensures forall i: nat :: FirstWritable(events, i) && events[i].socket.WouldBlock? ==> StepOf(events) == Moves(0)
    ensures (forall i: nat :: !FirstWritable(events, i)) ==> StepOf(events) == Moves(0)
  {
    if events == [] {
    } else if events[0].key == 1 && events[0].writable {
      assert FirstWritable(events, 0);
      assert forall i: nat :: FirstWritable(events, i) ==> i == 0;
    } else {
      var rest := events[1..];
      StepExactly(rest);
      forall i: nat ensures FirstWritable(events, i + 1) <==> FirstWritable(rest, i) {
        FirstWritableLater(events, i);
      }
      forall i: nat | FirstWritable(events, i) ensures i > 0 && FirstWritable(rest, i - 1) {
        FirstWritableLater(events, i - 1);
      }
    }
  }

  lemma FirstWritableLater(events: seq<PollEvent>, i: nat)
    requires events != [] && !(events[0].key == 1 && events[0].writable)
    ensures FirstWritable(events, i + 1) <==> FirstWritable(events[1..], i)
    ensures !FirstWritable(events, 0)
  {
    assert forall j :: 0 < j < |events| ==> events[j] == events[1..][j - 1];
  }

  /// The error a wait ends a write with: the time was up, the stream had been stopped, or the poller failed or the
  /// socket broke where the stream was writable first.
  ghost predicate EndsWith(poll: Poll, error: IoError) {
    && (error.TimedOut? <==> poll.found == Nothing(false))
    && (error.NotConnected? <==> poll.found == Nothing(true))
    && (error.Other? <==>
          || poll.found.PollFails?
          || (poll.found.Events? && exists i: nat ::
                FirstWritable(poll.found.events, i) && poll.found.events[i].socket.Broken?))
  }

  /// The wait found the stream writable, or not, but nothing failed.
  predicate GoesOn(poll: Poll) {
    poll.found.Events? && StepOf(poll.found.events).Moves?
  }

  /// How many bytes the socket was ready to take in a wait, and in some.
  function Offer(poll: Poll): nat
    requires GoesOn(poll)
  {
    StepOf(poll.found.events).n
  }

  function Offered(polls: seq<Poll>): nat
    requires forall i :: 0 <= i < |polls| ==> GoesOn(polls[i])
  {
    if polls == [] then 0 else Offer(polls[0]) + Offered(polls[1..])
  }

  /// The waits that did not end the write
  function GoodWaits(c: Course): int {
    if c.end.Fault? then c.polls - 1 else c.polls
  }

  /// The write waited no more often than needed, sent what was offered, and failed as its last wait says.
  ghost predicate Explains(n: nat, script: seq<Poll>, c: Course) {
    var good := GoodWaits(c);
    && 0 <= good && c.polls <= |script| && (forall i :: 0 <= i < good ==> GoesOn(script[i]))
    && c.sent == Min(n, Offered(script[..good]))
    && (forall k :: 0 <= k < c.polls ==> Offered(script[..k]) < n)
    && (c.end.Fault? ==> EndsWith(script[good], c.end.error))
  }

  lemma FirstWaitEnds(n: nat, script: seq<Poll>)
    requires n > 0 && script != [] && !GoesOn(script[0])
    ensures Explains(n, script, CourseOf(n, script))
  {
    if script[0].found.Events? {
      StepExactly(script[0].found.events);
    }
    assert script[..0] == [];
  }

  lemma OneWaitMore(n: nat, script: seq<Poll>, m: nat, d: Course)
    requires n > 0 && script != [] && GoesOn(script[0]) && Offer(script[0]) == m
    requires Explains(n - Min(m, n), script[1..], d)
    ensures Explains(n, script, Course(d.end, 1 + d.polls, Min(m, n) + d.sent))
  {
    var c := Course(d.end, 1 + d.polls, Min(m, n) + d.sent);
    assert forall i :: 0 < i < |script| ==> script[i] == script[1..][i - 1];
    if GoodWaits(c) > 0 {
      OfferedMore(script, GoodWaits(c));
    }
    forall k | 0 <= k < c.polls ensures Offered(script[..k]) < n {
      if k > 0 {
        OfferedMore(script, k);
        assert Offered(script[1..][..k - 1]) < n - Min(m, n);
      }
    }
  }

  /// For every poller and socket: a write waits until the socket has offered to take everything, or a wait ends it.
  lemma {:induction false} CourseExactly(n: nat, script: seq<Poll>)
    ensures Explains(n, script, CourseOf(n, script))
    decreases |script|
  {
    if n == 0 || script == [] {
    } else if !GoesOn(script[0]) {
      FirstWaitEnds(n, script);
    } else {
      var m := Offer(script[0]);
      CourseExactly(n - Min(m, n), script[1..]);
      OneWaitMore(n, script, m, CourseOf(n - Min(m, n), script[1..]));
    }
  }

  lemma OfferedMore(script: seq<Poll>, k: nat)
    requires 0 < k <= |script| && GoesOn(script[0]) && forall i :: 0 <= i < k ==> GoesOn(script[i])
    ensures Offered(script[..k]) == Offer(script[0]) + Offered(script[1..][..k - 1])
  {
    assert script[..k][1..] == script[1..][..k - 1];
  }

  lemma LastWait(n: nat, script: seq<Poll>)
    ensures var c := CourseOf(n, script);
            c.end.Fault? ==> c.polls > 0 && EndsWith(script[c.polls - 1], c.end.error)
  {
    CourseExactly(n, script);
  }

  function Waits(polls: seq<Poll>): nat {
    if polls == [] then 0 else Waits(polls[..|polls| - 1]) + polls[|polls| - 1].waited
  }

  /// How long a write of `n` bytes lasts.
  function Lasts(n: nat, script: seq<Poll>): nat {
    Waits(script[..CourseOf(n, script).polls])
  }

  function Comes(end: Ending, n: nat): Io {
    match end
    case Whole => Ok(n)
    case Fault(error) => Err(error)
    case Waiting => Unfinished
  }

  class CancellableStream {
    var delivered: Text     // what the socket has accepted
    var script: seq<Poll>   // what the poller will say next
    ghost var asked: nat    // how often the stream was asked to read

    constructor (script: seq<Poll>)
      ensures delivered == [] && this.script == script && asked == 0
    {
      delivered := [];
      this.script := script;
      asked := 0;
    }

    /// A read, which waits once and comes to what the outside makes of it.
    method Read(outside: Io, waited: nat, now: nat) returns (r: Io, later: nat)
      modifies this`asked
      ensures r == outside && asked == old(asked) + 1 && later == now + waited
    {
      asked := asked + 1;
      r, later := outside, now + waited;
    }

    /// `write_buf`: a socket accepts no more than it is offered.
    method WriteBuf(buffer: Text, socket: Socket) returns (r: Option<nat>, blocked: bool)
      modifies this`delivered
      ensures match socket
              case Accepts(n) => r == Some(Min(n, |buffer|)) && Sent(old(delivered), delivered, buffer, r.value)
              case WouldBlock => r == None && blocked && delivered == old(delivered)
              case Broken => r == None && !blocked && delivered == old(delivered)
    {
      match socket {
        case Accepts(n) =>
          delivered := delivered + buffer[..Min(n, |buffer|)];
          r, blocked := Some(Min(n, |buffer|)), false;
        case WouldBlock => r, blocked := None, true;
        case Broken => r, blocked := None, false;
      }
    }

    /// The loop of `write_int` over the events of one wait.
    method WriteOnce(buffer: Text, events: seq<PollEvent>) returns (r: Option<nat>)
      modifies this`delivered
      ensures match StepOf(events)
              case Moves(n) => r == Some(Min(n, |buffer|)) && Sent(old(delivered), delivered, buffer, r.value)
              case Breaks => r == None && delivered == old(delivered)
    {
      for i := 0 to |events|
        invariant StepOf(events) == StepOf(events[i..]) && delivered == old(delivered)
      {
        var event := events[i];
        if event.key != 1 || !event.writable {
          continue;
        }
        var n, blocked := WriteBuf(buffer, event.socket);
        if n.None? && !blocked {
          return None;
        }
        assert delivered == old(delivered) ==> Sent(old(delivered), delivered, buffer, 0);
        return Some(if n.Some? then n.value else 0);
      }
      assert Sent(old(delivered), delivered, buffer, 0);
      r := Some(0);
    }

    /// The loop of `write_int`: it waits anew for every round, and takes the course the poller and the socket give it.
    method WriteRounds(buffer: Text, now: nat) returns (r: Io, later: nat)
      modifies this`delivered, this`script
      ensures var course := CourseOf(|buffer|, old(script));
              && r == Comes(course.end, |buffer|) && Sent(old(delivered), delivered, buffer, course.sent)
              && script == old(script)[course.polls..] && later == now + Lasts(|buffer|, old(script))
    {
      var written: nat := 0;
      later := now;
      ghost var all, done := script, 0;
      while written < |buffer|
        invariant 0 <= done <= |all| && script == all[done..] && later == now + Waits(all[..done])
        invariant Sent(old(delivered), delivered, buffer, written)
        invariant Onward(CourseOf(|buffer|, all), CourseOf(|buffer| - written, script), done, written)
        decreases |script|
      {
        if script == [] {
          return Unfinished, later;
        }
        var poll := script[0];
        WaitsMore(all, done);
        script := script[1..];
        done := done + 1;
        later := later + poll.waited;
        match poll.found {
          case PollFails => return Err(Other), later;
          case Nothing(stopped) => return Err(if stopped then NotConnected else TimedOut), later;
          case Events(events) =>
            ghost var before, sent := delivered, written;
            var n := WriteOnce(buffer[written..], events);
            if n.None? {
              return Err(Other), later;
            }
            SentMore(old(delivered), before, buffer, sent, n.value);
            written := written + n.value;
        }
      }
      r := Ok(written);
    }

    /// `write_int` returns `Ok` only when the whole buffer went out, in order; otherwise a proper prefix did, and the
    /// error is the one the last wait gives.
    method WriteInt(buffer: Text, now: nat) returns (r: Io, later: nat)
      modifies this`delivered, this`script
      ensures var course := CourseOf(|buffer|, old(script));
              && r == Comes(course.end, |buffer|) && Sent(old(delivered), delivered, buffer, course.sent)
              && script == old(script)[course.polls..] && later == now + Lasts(|buffer|, old(script))
      ensures r.Ok? ==> r.n == |buffer| && delivered == old(delivered) + buffer
      ensures !r.Ok? ==> exists sent: nat :: sent < |buffer| && Sent(old(delivered), delivered, buffer, sent)
      ensures r.Err? ==>
                && |script| < |old(script)|
                && EndsWith(old(script)[|old(script)| - |script| - 1], r.error)
    {
      LastWait(|buffer|, script);
      r, later := WriteRounds(buffer, now);
      assert buffer[..|buffer|] == buffer;
    }
  }

  /// The rest of a course, after `done` waits and `sent` bytes.
  predicate Onward(all: Course, rest: Course, done: nat, sent: nat) {
    all == Course(rest.end, done + rest.polls, sent + rest.sent)
  }

  lemma WaitsMore(polls: seq<Poll>, n: nat)
    requires n < |polls|
    ensures Waits(polls[..n + 1]) == Waits(polls[..n]) + polls[n].waited
  {
    assert polls[..n + 1][..n] == polls[..n];
  }

  // ---------------------------------------------------------------- how long a write lasts

  /// No wait takes longer than the limit the poller was given.
  ghost predicate KeepsTo(polls: seq<Poll>, limit: nat) {
    forall i :: 0 <= i < |polls| ==> polls[i].waited <= limit
  }

  ghost predicate SameFound(a: seq<Poll>, b: seq<Poll>) {
    |a| == |b| && forall i :: 0 <= i < |a| ==> a[i].found == b[i].found
  }

  lemma {:induction false} WaitsBounded(polls: seq<Poll>, limit: nat)
    requires KeepsTo(polls, limit)
    ensures Waits(polls) <= |polls| * limit
  {
    if polls == [] {
    } else {
      WaitsBounded(polls[..|polls| - 1], limit);
    }
  }

  lemma {:induction false} WaitsAtLimit(polls: seq<Poll>, limit: nat)
    requires forall i :: 0 <= i < |polls| ==> polls[i].waited == limit
    ensures Waits(polls) == |polls| * limit
  {
    if polls == [] {
    } else {
      WaitsAtLimit(polls[..|polls| - 1], limit);
    }
  }

  lemma {:induction false} SameCourse(n: nat, a: seq<Poll>, b: seq<Poll>)
    requires SameFound(a, b)
    ensures CourseOf(n, a) == CourseOf(n, b)
    decreases |a|
  {
    if n == 0 || a == [] {
    } else {
      match a[0].found
      case Events(events) =>
        match StepOf(events) {
          case Moves(k) => SameCourse(n - Min(k, n), a[1..], b[1..]);
          case Breaks =>
        }
      case _ =>
    }
  }

  /// A write that waits `polls` times lasts at most as many times the limit.
  lemma WriteLasts(n: nat, script: seq<Poll>, limit: nat)
    requires KeepsTo(script[..CourseOf(n, script).polls], limit)
    ensures Lasts(n, script) <= CourseOf(n, script).polls * limit
  {
    WaitsBounded(script[..CourseOf(n, script).polls], limit);
  }

  /// What the poller finds, each time at the very limit
  function AtLimit(script: seq<Poll>, limit: nat): (r: seq<Poll>)
    ensures |r| == |script|
    ensures forall i :: 0 <= i < |r| ==> r[i].waited == limit && r[i].found == script[i].found
  {
    seq(|script|, i requires 0 <= i < |script| => Poll(limit, script[i].found))
  }

  /// And that is as long as it can last.
  lemma WriteLastsThisLong(n: nat, script: seq<Poll>, limit: nat)
    ensures CourseOf(n, AtLimit(script, limit)) == CourseOf(n, script)
    ensures Lasts(n, AtLimit(script, limit)) == CourseOf(n, script).polls * limit
  {
    SameCourse(n, AtLimit(script, limit), script);
    WaitsAtLimit(AtLimit(script, limit)[..CourseOf(n, script).polls], limit);
  }

  /// Whatever the times of the waits, as long as each keeps to its limit, a write that finds what this script finds
  /// lasts no longer than the limit.
  ghost predicate Punctual(n: nat, script: seq<Poll>, limit: nat) {
    forall other :: SameFound(other, script) && KeepsTo(other, limit) ==> Lasts(n, other) <= limit
  }

  /// That is so exactly when it waits once at most.
  lemma PunctualExactly(n: nat, script: seq<Poll>, limit: nat)
    ensures Punctual(n, script, limit) <==> CourseOf(n, script).polls <= 1 || limit == 0
  {
    var polls := CourseOf(n, script).polls;
    WriteLastsThisLong(n, script, limit);
    MoreThanOnce(polls, limit);
    assert SameFound(AtLimit(script, limit), script) && KeepsTo(AtLimit(script, limit), limit);
    if polls <= 1 || limit == 0 {
      forall other | SameFound(other, script) && KeepsTo(other, limit)
        ensures Lasts(n, other) <= limit
      {
        SameCourse(n, other, script);
        WriteLasts(n, other, limit);
      }
    }
  }

  lemma MoreThanOnce(polls: nat, limit: nat)
    ensures polls * limit <= limit <==> polls <= 1 || limit == 0
  {
    if polls > 1 {
      assert polls * limit == limit + (polls - 1) * limit;
      assert limit > 0 ==> (polls - 1) * limit > 0;
    }
  }

  /// Every wait finds the socket ready for a byte at least.
  ghost predicate Progresses(script: seq<Poll>) {
    forall i :: 0 <= i < |script| ==>
      script[i].found.Events? && StepOf(script[i].found.events).Moves? && StepOf(script[i].found.events).n > 0
  }

  lemma {:induction false} ProgressBoundsPolls(n: nat, script: seq<Poll>)
    requires Progresses(script)
    ensures CourseOf(n, script).polls <= n
    decreases |script|
  {
    if n == 0 || script == [] {
    } else {
      var k := StepOf(script[0].found.events).n;
      assert forall i :: 0 <= i < |script| - 1 ==> script[1..][i] == script[i + 1];
      ProgressBoundsPolls(n - Min(k, n), script[1..]);
    }
  }

  /// A wait of that length after which the socket does that
  function Ready(waited: nat, socket: Socket): Poll {
    Poll(waited, Events([PollEvent(1, true, socket)]))
  }

  /// A peer that takes one byte at a time
  function Drip(n: nat, waited: nat): seq<Poll> {
    seq(n, _ => Ready(waited, Accepts(1)))
  }

  lemma {:induction false} DripCourse(n: nat, waited: nat)
    ensures CourseOf(n, Drip(n, waited)) == Course(Whole, n, n) && Lasts(n, Drip(n, waited)) == n * waited
  {
    if n == 0 {
    } else {
      DripCourse(n - 1, waited);
      assert Drip(n, waited)[1..] == Drip(n - 1, waited);
      assert StepOf([PollEvent(1, true, Accepts(1))]) == Moves(1);
    }
    WaitsAtLimit(Drip(n, waited), waited);
    assert Drip(n, waited)[..n] == Drip(n, waited);
  }

  /// Over all pollers that keep to their limit: a write that succeeds surely lasts no longer only if there is nothing
  /// to write.
  lemma AnyPollerExactly(n: nat, limit: nat)
    ensures (forall script :: KeepsTo(script, limit) && CourseOf(n, script).end.Whole? ==> Lasts(n, script) <= limit)
       <==> n == 0 || limit == 0
  {
    if n > 0 {
      BlockedOnce(n, limit);
      assert KeepsTo(AtSecondTry(n, limit), limit);
    }
    forall script | KeepsTo(script, limit) && (n == 0 || limit == 0)
      ensures Lasts(n, script) <= limit
    {
      WriteLasts(n, script, limit);
    }
  }

  /// A socket that would block when it is tried first, and takes everything then
  function AtSecondTry(n: nat, waited: nat): seq<Poll> {
    [Ready(waited, WouldBlock), Ready(waited, Accepts(n))]
  }

  lemma BlockedOnce(n: nat, waited: nat)
    requires n > 0
    ensures CourseOf(n, AtSecondTry(n, waited)) == Course(Whole, 2, n)
    ensures Lasts(n, AtSecondTry(n, waited)) == 2 * waited
  {
    var ready := Ready(waited, Accepts(n));
    var twice := AtSecondTry(n, waited);
    assert StepOf([PollEvent(1, true, WouldBlock)]) == Moves(0);
    assert StepOf([PollEvent(1, true, Accepts(n))]) == Moves(n);
    assert twice[1..] == [ready] && [ready][1..] == [];
    assert CourseOf(n, [ready]) == Course(Whole, 1, n);
    assert CourseOf(n, twice) == Course(Whole, 2, n);
    assert twice[..2] == twice;
    WaitsAtLimit(twice, waited);
  }

  /// Over those that find the socket ready for a byte each time: a write of `n` bytes lasts at most `n` times the
  /// limit, and surely no longer than the limit only if it is of one byte.
  lemma ProgressingPollerExactly(n: nat, limit: nat)
    ensures forall script :: KeepsTo(script, limit) && Progresses(script) ==> Lasts(n, script) <= n * limit
    ensures (forall script :: KeepsTo(script, limit) && Progresses(script) ==> Lasts(n, script) <= limit)
       <==> n <= 1 || limit == 0
  {
    forall script | KeepsTo(script, limit) && Progresses(script)
      ensures Lasts(n, script) <= n * limit
    {
      ProgressBoundsPolls(n, script);
      WriteLasts(n, script, limit);
      NoMoreWaits(CourseOf(n, script).polls, n, limit);
    }
    MoreThanOnce(n, limit);
    DripCourse(n, limit);
    assert StepOf([PollEvent(1, true, Accepts(1))]) == Moves(1);
    assert KeepsTo(Drip(n, limit), limit) && Progresses(Drip(n, limit));
  }

  lemma NoMoreWaits(a: nat, b: nat, limit: nat)
    requires a <= b
    ensures a * limit <= b * limit
  {}
}
