/** A stream under a budget of whole seconds: what the budget grants, and what it does not bound. */
module TimedStreams {
  import opened Bytes
  import opened PolledWrites

  // ---------------------------------------------------------------- the budget

  const SECOND: nat := 1_000_000_000

  /// The seconds an operation records for calls that took `durations`: each is cut to whole seconds.
  ghost function Recorded(durations: seq<nat>): nat {
    if durations == [] then 0
    else Recorded(durations[..|durations| - 1]) + durations[|durations| - 1] / SECOND
  }

  ghost function Total(durations: seq<nat>): nat {
    if durations == [] then 0 else Total(durations[..|durations| - 1]) + durations[|durations| - 1]
  }

  /// The seconds the next call may wait.
  ghost function Grant(timeout: nat, durations: seq<nat>): nat {
    if Recorded(durations) >= timeout / SECOND then 0 else timeout / SECOND - Recorded(durations)
  }

  /// Every call was made while something was left.
  ghost predicate Entitled(timeout: nat, durations: seq<nat>) {
    forall i :: 0 <= i < |durations| ==> Grant(timeout, durations[..i]) > 0
  }

  /// And every call took no longer than `waits` times what it was granted: once for a call that waits once, as reads
  /// do.
  ghost predicate Honoured(timeout: nat, durations: seq<nat>, waits: nat) {
    && Entitled(timeout, durations)
    && forall i :: 0 <= i < |durations| ==> durations[i] <= waits * (SECOND * Grant(timeout, durations[..i]))
  }

  /// Real time runs ahead of the record by less than a second a call.
  lemma {:induction false} RecordLags(durations: seq<nat>)
    ensures SECOND * Recorded(durations) <= Total(durations)
    ensures Total(durations) <= SECOND * Recorded(durations) + |durations| * (SECOND - 1)
  {
    if durations == [] {
    } else {
      RecordLags(durations[..|durations| - 1]);
    }
  }

  /// The record is real time exactly for calls of whole seconds.
  lemma {:induction false} RecordIsTimeExactly(durations: seq<nat>)
    ensures Total(durations) == SECOND * Recorded(durations) <==>
              forall i :: 0 <= i < |durations| ==> durations[i] % SECOND == 0
  {
    if durations == [] {
    } else {
      var n := |durations| - 1;
      RecordIsTimeExactly(durations[..n]);
      RecordLags(durations[..n]);
      assert forall i :: 0 <= i < n ==> durations[..n][i] == durations[i];
    }
  }

  lemma WholeBeforePart(waits: nat, part: nat, whole: nat)
    requires waits > 0 && part <= whole
    ensures part + waits * (whole - part) <= waits * whole
  {
    assert waits * (whole - part) == waits * whole - waits * part;
    assert part <= waits * part;
  }

  /// The calls take at most `waits` times the timeout's whole seconds, and a second less a tick for each but the last.
  lemma HonouredCallsBounded(timeout: nat, durations: seq<nat>, waits: nat)
    requires Honoured(timeout, durations, waits) && waits > 0 && durations != []
    ensures Total(durations) <= waits * (SECOND * (timeout / SECOND)) + (|durations| - 1) * (SECOND - 1)
  {
    var n := |durations| - 1;
    var recorded := Recorded(durations[..n]);
    RecordLags(durations[..n]);
    assert Grant(timeout, durations[..n]) > 0;
    assert SECOND * (timeout / SECOND - recorded) == SECOND * (timeout / SECOND) - SECOND * recorded;
    LastCallBounded(Total(durations[..n]), durations[n], SECOND * recorded, SECOND * (timeout / SECOND), n, waits);
  }

  lemma LastCallBounded(before: nat, last: nat, part: nat, whole: nat, n: nat, waits: nat)
    requires waits > 0 && part <= whole
    requires before <= part + n * (SECOND - 1) && last <= waits * (whole - part)
    ensures before + last <= waits * whole + n * (SECOND - 1)
  {
    WholeBeforePart(waits, part, whole);
  }

  /// Calls that wait once never record more than the timeout.
  lemma HonouredRecordBounded(timeout: nat, durations: seq<nat>)
    requires Honoured(timeout, durations, 1)
    ensures Recorded(durations) <= timeout / SECOND
  {
    if durations != [] {
      var n := |durations| - 1;
      assert durations[n] <= 1 * (SECOND * Grant(timeout, durations[..n]));
      assert Grant(timeout, durations[..n]) > 0;
    }
  }

  lemma TotalMore(durations: seq<nat>, more: nat)
    ensures Recorded(durations + [more]) == Recorded(durations) + more / SECOND
    ensures Total(durations + [more]) == Total(durations) + more
  {
    assert (durations + [more])[..|durations|] == durations;
  }

  /// At first the timeout's whole seconds are granted, and the whole seconds of every call are taken off.
  lemma GrantFalls(timeout: nat, durations: seq<nat>, more: nat)
    ensures Grant(timeout, []) == timeout / 1_000_000_000
    ensures var left := Grant(timeout, durations);
            var taken := more / 1_000_000_000;
            Grant(timeout, durations + [more]) == if taken >= left then 0 else left - taken
  {
    TotalMore(durations, more);
  }

  lemma EntitledMore(timeout: nat, durations: seq<nat>, more: nat)
    requires Entitled(timeout, durations) && Grant(timeout, durations) > 0
    ensures Entitled(timeout, durations + [more])
  {
    var longer := durations + [more];
    assert forall i :: 0 <= i < |durations| ==> longer[..i] == durations[..i];
    assert longer[..|durations|] == durations;
  }

  lemma HonouredMore(timeout: nat, durations: seq<nat>, more: nat, waits: nat)
    requires Honoured(timeout, durations, waits) && Grant(timeout, durations) > 0
    requires more <= waits * (SECOND * Grant(timeout, durations))
    ensures Honoured(timeout, durations + [more], waits)
  {
    var longer := durations + [more];
    EntitledMore(timeout, durations, more);
    assert forall i :: 0 <= i < |durations| ==> longer[..i] == durations[..i];
    assert longer[..|durations|] == durations;
  }

  /// `k` calls of just under a second each
  ghost function Slow(k: nat): (d: seq<nat>)
    ensures |d| == k && forall i :: 0 <= i < k ==> d[i] == SECOND - 1
  {
    seq(k, _ => SECOND - 1)
  }

  /// Nothing of them is ever recorded.
  lemma {:induction false} SlowCallsAreFree(k: nat)
    ensures Recorded(Slow(k)) == 0 && Total(Slow(k)) == k * (SECOND - 1)
  {
    if k == 0 {
    } else {
      SlowCallsAreFree(k - 1);
      TotalMore(Slow(k - 1), SECOND - 1);
      assert Slow(k) == Slow(k - 1) + [SECOND - 1];
    }
  }

  /// So they are all granted the full timeout, and honour it.
  lemma SlowCallsAreHonoured(timeout: nat, k: nat, waits: nat)
    requires timeout >= SECOND && waits > 0
    ensures Honoured(timeout, Slow(k), waits) && Grant(timeout, Slow(k)) == timeout / SECOND > 0
  {
    var whole := SECOND * (timeout / SECOND);
    WholeBeforePart(waits, 0, whole);
    assert whole <= waits * whole by { WholeBeforePart(waits, whole, whole); }
    forall i | 0 <= i <= k
      ensures Grant(timeout, Slow(k)[..i]) == timeout / SECOND
    {
      assert Slow(k)[..i] == Slow(i);
      SlowCallsAreFree(i);
    }
    assert Slow(k)[..k] == Slow(k);
  }

  /// `k` calls of which the last uses the whole timeout each time it waits
  ghost function Worst(timeout: nat, k: nat, waits: nat): seq<nat>
    requires k > 0
  {
    Slow(k - 1) + [waits * (SECOND * (timeout / SECOND))]
  }

  lemma WorstIsHonoured(timeout: nat, k: nat, waits: nat)
    requires timeout >= SECOND && k > 0 && waits > 0
    ensures var worst := Worst(timeout, k, waits);
            && |worst| == k && Honoured(timeout, worst, waits)
            && Total(worst) == waits * (SECOND * (timeout / SECOND)) + (k - 1) * (SECOND - 1)
  {
    var last := waits * (SECOND * (timeout / SECOND));
    SlowCallsAreFree(k - 1);
    SlowCallsAreHonoured(timeout, k - 1, waits);
    TotalMore(Slow(k - 1), last);
    HonouredMore(timeout, Slow(k - 1), last, waits);
  }

  /// No run of `k` calls that honour their grants, waiting so often each, takes longer than the timeout.
  ghost predicate Bounds(timeout: nat, k: nat, waits: nat) {
    forall durations :: |durations| == k && Honoured(timeout, durations, waits) ==> Total(durations) <= timeout
  }

  /// The budget bounds the real time of `k` calls that wait so often each exactly when so many times the timeout's
  /// whole seconds, and a second less a tick for each call but the last, fit into the timeout.  With a timeout below a
  /// second no call is made at all.
  lemma BudgetBoundsTimeExactly(timeout: nat, k: nat, waits: nat)
    ensures timeout >= SECOND && k > 0 && waits > 0 ==>
              (Bounds(timeout, k, waits)
               <==> waits * (SECOND * (timeout / SECOND)) + (k - 1) * (SECOND - 1) <= timeout)
    ensures timeout < SECOND ==> forall durations :: Entitled(timeout, durations) ==> durations == []
  {
    if timeout >= SECOND && k > 0 && waits > 0 {
      WorstIsHonoured(timeout, k, waits);
      if waits * (SECOND * (timeout / SECOND)) + (k - 1) * (SECOND - 1) <= timeout {
        forall durations | |durations| == k && Honoured(timeout, durations, waits)
          ensures Total(durations) <= timeout
        {
          HonouredCallsBounded(timeout, durations, waits);
        }
      } else {
        assert Total(Worst(timeout, k, waits)) > timeout;
      }
    }
    forall durations: seq<nat> | timeout < SECOND && durations != []
      ensures !Entitled(timeout, durations)
    {
      NothingGranted(timeout, durations);
    }
  }

  lemma NothingGranted(timeout: nat, durations: seq<nat>)
    requires timeout < SECOND && durations != []
    ensures !Entitled(timeout, durations)
  {
    assert Grant(timeout, durations[..0]) == 0;
  }

  /// Reads wait once.  Their time is bounded for one call always, for two with a timeout a tick short of a whole
  /// second, and for more never.
  lemma ReadsAreBoundedExactly(timeout: nat, k: nat)
    requires timeout >= SECOND && k > 0
    ensures Bounds(timeout, k, 1) <==> k == 1 || (k == 2 && timeout % SECOND == SECOND - 1)
  {
    BudgetBoundsTimeExactly(timeout, k, 1);
    assert SECOND * (timeout / SECOND) + timeout % SECOND == timeout;
  }

  /// Writes may wait more than once.  Then not even one call is bounded.
  lemma WritesAreNotBounded(timeout: nat, k: nat, waits: nat)
    requires timeout >= SECOND && k > 0 && waits > 1
    ensures !Bounds(timeout, k, waits)
  {
    var whole := SECOND * (timeout / SECOND);
    BudgetBoundsTimeExactly(timeout, k, waits);
    TwiceIsTooLong(timeout, waits, whole);
  }

  lemma TwiceIsTooLong(timeout: nat, waits: nat, whole: nat)
    requires timeout >= SECOND && waits > 1 && whole == SECOND * (timeout / SECOND)
    ensures waits * whole > timeout
  {
    assert whole + timeout % SECOND == timeout && whole >= SECOND;
    assert waits * whole == 2 * whole + (waits - 2) * whole;
    assert (waits - 2) * whole >= 0;
  }

  class Operation {
    const timeout: nat          // nanoseconds
    var started: Option<nat>    // an instant
    var elapsedSecs: nat
    ghost var durations: seq<nat>   // of the calls so far

    ghost predicate Valid()
      reads this
    {
      elapsedSecs == Recorded(durations)
    }

    constructor (timeout: nat)
      ensures Valid() && this.timeout == timeout && elapsedSecs == 0 && durations == []
    {
      this.timeout := timeout;
      started, elapsedSecs := None, 0;
      durations := [];
    }

    /// `next_timeout`, in whole seconds
    function NextTimeout(): (r: nat)
      reads this
      requires Valid()
      ensures r == Grant(timeout, durations)
    {
      if elapsedSecs >= timeout / SECOND then 0 else timeout / SECOND - elapsedSecs
    }

    method Start(now: nat)
      modifies this`started
      ensures started == Some(now)
    {
      started := Some(now);
    }

    /// The call that started last ends: its whole seconds are recorded.
    method Stop(now: nat)
      requires Valid() && started.Some? && started.value <= now
      modifies this`elapsedSecs, this`durations
      ensures Valid() && durations == old(durations) + [now - started.value]
    {
      var elapsed := (now - started.value) / SECOND;
      TotalMore(durations, now - started.value);
      durations := durations + [now - started.value];
      elapsedSecs := elapsedSecs + elapsed;
    }

    /// The same for a call that was granted something.
    method StopInTime(now: nat)
      requires Valid() && started.Some? && started.value <= now
      requires Entitled(timeout, durations) && Grant(timeout, durations) > 0
      modifies this`elapsedSecs, this`durations
      ensures Valid() && Entitled(timeout, durations) && durations == old(durations) + [now - started.value]
    {
      EntitledMore(timeout, durations, now - started.value);
      Stop(now);
    }
  }

  ghost predicate Budgeted(timeout: Option<nat>, op: Operation?)
    reads op
  {
    op != null ==> timeout == Some(op.timeout) && op.Valid() && Entitled(op.timeout, op.durations)
  }

  /// How long the calls took that reached the stream.
  ghost function CallsOf(op: Operation?): seq<nat>
    reads op
  {
    if op == null then [] else op.durations
  }

  /// The budget has nothing left.
  ghost predicate Spent(timeout: Option<nat>, op: Operation?)
    reads op
  {
    timeout.Some? && Grant(timeout.value, CallsOf(op)) == 0
  }

  class TimeoutStream {
    const stream: CancellableStream
    const readTimeout: Option<nat>
    const writeTimeout: Option<nat>
    var ongoingRead: Operation?
    var ongoingWrite: Operation?
    ghost var granted: Option<nat>   // the wait the last call that reached the stream was granted, in seconds

    ghost predicate Valid()
      reads this, ongoingRead, ongoingWrite
    {
      && Budgeted(readTimeout, ongoingRead) && Budgeted(writeTimeout, ongoingWrite)
      && (ongoingRead != null ==> ongoingRead != ongoingWrite)
    }

    constructor (stream: CancellableStream, readTimeout: Option<nat>, writeTimeout: Option<nat>)
      ensures Valid() && this.stream == stream && ongoingRead == null && ongoingWrite == null
      ensures this.readTimeout == readTimeout && this.writeTimeout == writeTimeout
    {
      this.stream, this.readTimeout, this.writeTimeout := stream, readTimeout, writeTimeout;
      ongoingRead, ongoingWrite, granted := null, null, None;
    }

    /// `read`: once the budget is spent, every call times out without touching the stream; before that a call may wait
    /// for what is left of it, once.  The budget of writing is another one.
    method Read(outside: Io, waited: nat, now: nat) returns (r: Io, later: nat)
      requires Valid()
      modifies this`ongoingRead, this`granted, stream`asked, ongoingRead
      ensures Valid()
      ensures if old(ongoingRead) == null then ongoingRead == null || fresh(ongoingRead)
              else ongoingRead == old(ongoingRead)
      ensures old(Spent(readTimeout, ongoingRead)) ==>
                && r == Err(TimedOut) && later == now && Spent(readTimeout, ongoingRead)
                && stream.asked == old(stream.asked) && CallsOf(ongoingRead) == old(CallsOf(ongoingRead))
      ensures !old(Spent(readTimeout, ongoingRead)) ==>
                r == outside && later == now + waited && stream.asked == old(stream.asked) + 1
      ensures readTimeout.Some? && !old(Spent(readTimeout, ongoingRead)) ==>
                && granted == Some(Grant(readTimeout.value, old(CallsOf(ongoingRead))))
                && CallsOf(ongoingRead) == old(CallsOf(ongoingRead)) + [waited]
    {
      later := now;
      if readTimeout.None? {
        r, later := stream.Read(outside, waited, now);
        return;
      }
      if ongoingRead == null {
        ongoingRead := new Operation(readTimeout.value);
      }
      var next := ongoingRead.NextTimeout();
      if next == 0 {
        return Err(TimedOut), later;
      }
      granted := Some(next);
      ongoingRead.Start(now);
      r, later := stream.Read(outside, waited, now);
      ongoingRead.StopInTime(later);
    }

    /// `write`: the same, but a call waits as often as its course has it, and one that succeeds has sent the whole
    /// buffer.
    method Write(buffer: Text, now: nat) returns (r: Io, later: nat)
      requires Valid()
      modifies this`ongoingWrite, this`granted, stream`delivered, stream`script, ongoingWrite
      ensures Valid()
      ensures if old(ongoingWrite) == null then ongoingWrite == null || fresh(ongoingWrite)
              else ongoingWrite == old(ongoingWrite)
      ensures old(Spent(writeTimeout, ongoingWrite)) ==>
                && r == Err(TimedOut) && later == now && Spent(writeTimeout, ongoingWrite)
                && stream.delivered == old(stream.delivered) && stream.script == old(stream.script)
                && CallsOf(ongoingWrite) == old(CallsOf(ongoingWrite))
      ensures !old(Spent(writeTimeout, ongoingWrite)) ==>
                var course := CourseOf(|buffer|, old(stream.script));
                && r == Comes(course.end, |buffer|) && stream.script == old(stream.script)[course.polls..]
                && Sent(old(stream.delivered), stream.delivered, buffer, course.sent)
                && later == now + Lasts(|buffer|, old(stream.script))
      ensures writeTimeout.Some? && !old(Spent(writeTimeout, ongoingWrite)) ==>
                && granted == Some(Grant(writeTimeout.value, old(CallsOf(ongoingWrite))))
                && CallsOf(ongoingWrite) == old(CallsOf(ongoingWrite)) + [Lasts(|buffer|, old(stream.script))]
      ensures r.Ok? ==> r.n == |buffer| && stream.delivered == old(stream.delivered) + buffer
      ensures !r.Ok? ==> SentPrefix(old(stream.delivered), stream.delivered, buffer)
    {
      later := now;
      if writeTimeout.None? {
        r, later := stream.WriteInt(buffer, now);
        return;
      }
      if ongoingWrite == null {
        ongoingWrite := new Operation(writeTimeout.value);
      }
      var next := ongoingWrite.NextTimeout();
      if next == 0 {
        assert Sent(stream.delivered, stream.delivered, buffer, 0);
        return Err(TimedOut), later;
      }
      granted := Some(next);
      ongoingWrite.Start(now);
      r, later := stream.WriteInt(buffer, now);
      ongoingWrite.StopInTime(later);
    }

    /// A start line goes out with a single `write` whose count is not looked at; it goes out whole all the same.
    method SendLine(line: Text, now: nat) returns (ok: bool, later: nat)
      requires Valid()
      modifies this`ongoingWrite, this`granted, stream`delivered, stream`script, ongoingWrite
      ensures Valid() && (ongoingWrite == old(ongoingWrite) || fresh(ongoingWrite))
      ensures ok ==> stream.delivered == old(stream.delivered) + line
      ensures !ok ==> SentPrefix(old(stream.delivered), stream.delivered, line)
    {
      var r;
      r, later := Write(line, now);
      ok := r.Ok?;
    }
  }

  /// A call whose waits keep to what it was granted takes no longer than so many times that.
  lemma WriteHonours(timeout: nat, durations: seq<nat>, n: nat, script: seq<Poll>, waits: nat)
    requires Honoured(timeout, durations, waits) && Grant(timeout, durations) > 0
    requires CourseOf(n, script).polls <= waits
    requires KeepsTo(script[..CourseOf(n, script).polls], SECOND * Grant(timeout, durations))
    ensures Honoured(timeout, durations + [Lasts(n, script)], waits)
  {
    var limit := SECOND * Grant(timeout, durations);
    WriteLasts(n, script, limit);
    NoMoreWaits(CourseOf(n, script).polls, waits, limit);
    HonouredMore(timeout, durations, Lasts(n, script), waits);
  }

  /// The run that shows that the budget does not bound the time of one write: a peer that takes a byte at a time, each
  /// at the very end of the wait granted, has the whole buffer, and the one call has lasted its grant as many times as
  /// the buffer has bytes.
  method LongWrite(timeout: nat, buffer: Text) returns (s: TimeoutStream, r: Io)
    requires timeout >= SECOND && |buffer| > 1
    ensures r == Ok(|buffer|) && s.stream.delivered == buffer && s.writeTimeout == Some(timeout) && s.Valid()
    ensures CallsOf(s.ongoingWrite) == [|buffer| * (SECOND * (timeout / SECOND))]
    ensures Honoured(timeout, CallsOf(s.ongoingWrite), |buffer|)
    ensures Total(CallsOf(s.ongoingWrite)) > timeout
  {
    var whole := SECOND * (timeout / SECOND);
    ghost var last := |buffer| * whole;
    var stream := new CancellableStream(Drip(|buffer|, whole));
    s := new TimeoutStream(stream, None, Some(timeout));
    assert Slow(0) == [];
    SlowCallsAreHonoured(timeout, 0, |buffer|);
    DripCourse(|buffer|, whole);
    var later;
    r, later := s.Write(buffer, 0);
    TotalMore([], last);
    HonouredMore(timeout, [], last, |buffer|);
    assert [] + [last] == [last];
    TwiceIsTooLong(timeout, |buffer|, whole);
  }

  /// One more write of just under a second.
  method SlowWrite(s: TimeoutStream, timeout: nat, buffer: Text, ghost i: nat, now: nat) returns (later: nat)
    requires timeout >= SECOND && buffer != [] && s.Valid() && s.writeTimeout == Some(timeout)
    requires s.stream.script != [] && s.stream.script[0] == Ready(SECOND - 1, Accepts(|buffer|))
    requires CallsOf(s.ongoingWrite) == Slow(i)
    modifies s`ongoingWrite, s`granted, s.stream`delivered, s.stream`script, s.ongoingWrite
    ensures s.Valid() && (s.ongoingWrite == old(s.ongoingWrite) || fresh(s.ongoingWrite))
    ensures s.stream.script == old(s.stream.script)[1..] && s.stream.delivered == old(s.stream.delivered) + buffer
    ensures CallsOf(s.ongoingWrite) == Slow(i + 1) && s.granted == Some(timeout / SECOND)
  {
    SlowCallsAreHonoured(timeout, i, 1);
    OneWait(|buffer|, s.stream.script, Ready(SECOND - 1, Accepts(|buffer|)));
    var r;
    r, later := s.Write(buffer, now);
    assert Slow(i + 1) == Slow(i) + [SECOND - 1];
  }

  /// The run that shows it for calls that wait once: any number of writes of just under a second each, all of them
  /// granted the full timeout, honour it, and the budget is never spent.
  method SlowWrites(timeout: nat, buffer: Text, k: nat) returns (s: TimeoutStream)
    requires timeout >= SECOND && buffer != []
    ensures s.Valid() && s.writeTimeout == Some(timeout) && CallsOf(s.ongoingWrite) == Slow(k)
    ensures Honoured(timeout, CallsOf(s.ongoingWrite), 1) && !Spent(s.writeTimeout, s.ongoingWrite)
    ensures Total(CallsOf(s.ongoingWrite)) == k * (SECOND - 1)
    ensures k > 0 ==> s.granted == Some(timeout / SECOND)
  {
    var slow := Ready(SECOND - 1, Accepts(|buffer|));
    var stream := new CancellableStream(seq(k, _ => slow));
    s := new TimeoutStream(stream, None, Some(timeout));
    assert Slow(0) == [];
    var clock := 0;
    for i := 0 to k
      invariant fresh(s) && fresh(stream) && s.Valid() && s.stream == stream && s.writeTimeout == Some(timeout)
      invariant stream.script == seq(k - i, _ => slow)
      invariant s.ongoingWrite != null ==> fresh(s.ongoingWrite)
      invariant CallsOf(s.ongoingWrite) == Slow(i) && (i > 0 ==> s.granted == Some(timeout / SECOND))
    {
      clock := SlowWrite(s, timeout, buffer, i, clock);
    }
    SlowCallsAreFree(k);
    SlowCallsAreHonoured(timeout, k, 1);
  }

  lemma OneWait(n: nat, script: seq<Poll>, poll: Poll)
    requires n > 0 && script != [] && script[0] == poll == Ready(poll.waited, Accepts(n))
    ensures CourseOf(n, script) == Course(Whole, 1, n) && Lasts(n, script) == poll.waited
  {
    assert StepOf([PollEvent(1, true, Accepts(n))]) == Moves(n);
    assert script[..1] == [poll] && [poll][..0] == [];
    assert Waits([poll]) == Waits([]) + poll.waited;
  }

  /// Whatever the calls, real time is less than the recorded seconds and one more for each call.
  lemma BudgetMeaning(op: Operation)
    requires op.Valid()
    ensures Total(op.durations) <= SECOND * op.elapsedSecs + |op.durations| * (SECOND - 1)
    ensures SECOND * op.elapsedSecs <= Total(op.durations)
    ensures Honoured(op.timeout, op.durations, 1) ==> op.elapsedSecs <= op.timeout / SECOND
  {
    RecordLags(op.durations);
    if Honoured(op.timeout, op.durations, 1) {
      HonouredRecordBounded(op.timeout, op.durations);
    }
  }
}
