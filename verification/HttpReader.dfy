/**
 The two ends of a stream.  A message is read through a buffer of its own that takes whatever the stream has to offer,
 so the reader can run ahead of the message it reads.
 */
module HttpReader {
  import opened Bytes
  import opened HttpText

  datatype IoKind = TimedOut | NotConnected | OtherFault

  /// What a read finds once everything that arrives has been read: the end of the input, or a fault every time.
  datatype End = Eof | Broken(kind: IoKind)

  datatype HttpError = Unknown | ConnectionClosed | Timeout | InvalidRequest

  /// What a read comes to.  `Panics` is an index out of range, `Hangs` a loop that reads nothing for ever.
  datatype Outcome<+T> = Done(value: T) | Fails(error: HttpError) | Panics | Hangs

  /// `HttpError::from` of an I/O error
  function FromIo(kind: IoKind): HttpError {
    match kind
    case NotConnected => ConnectionClosed
    case TimedOut => Timeout
    case OtherFault => Unknown
  }

  /// `read_until` of an input with that end: a fault before the delimiter is a fault of the call.
  function TryUntil(input: Text, d: byte, end: End): (r: Option<Text>)
    ensures r.None? ==> end.Broken? && d !in input
    ensures r.Some? ==> r.value == Until(input, d) && (end.Eof? || d in r.value)
  {
    UntilSplits(input, d);
    if end.Broken? && d !in Until(input, d) then None else Some(Until(input, d))
  }

  /// The size of the reader's buffer.
  const CAPACITY: nat := 8192

  /// How many bytes the stream delivers when it is read at a place: any number from one to a buffer.
  type Delivery = nat -> nat

  function Min(a: nat, b: nat): nat {
    if a <= b then a else b
  }

  /// Where a read at `p` into an empty buffer ends.
  function ChunkEnd(input: Text, delivery: Delivery, p: nat): (e: nat)
    requires p <= |input|
    ensures p <= e <= |input| && e <= p + CAPACITY && (e == p <==> p == |input|)
  {
    p + Min(if delivery(p) == 0 then 1 else Min(delivery(p), CAPACITY), |input| - p)
  }

  /// How far the stream is read, chunk by chunk from `start` on, once the bytes before `target` have been used.
  function Filled(input: Text, delivery: Delivery, start: nat, target: nat): (e: nat)
    requires start <= |input| && target <= |input|
    ensures start <= e <= |input| && target <= e
    ensures target <= start ==> e == start
    decreases |input| - start
  {
    if target <= start then start else Filled(input, delivery, ChunkEnd(input, delivery, start), target)
  }

  lemma {:induction false} FilledOn(input: Text, delivery: Delivery, start: nat, p: nat, q: nat)
    requires start <= |input| && p <= q <= |input|
    ensures Filled(input, delivery, start, q) == Filled(input, delivery, Filled(input, delivery, start, p), q)
    decreases |input| - start
  {
    if p <= start {
    } else {
      FilledOn(input, delivery, ChunkEnd(input, delivery, start), p, q);
    }
  }

  /// No more than a buffer is read ahead.
  lemma {:induction false} FilledWithinBuffer(input: Text, delivery: Delivery, start: nat, p: nat)
    requires start <= p <= |input|
    ensures Filled(input, delivery, start, p) - p < CAPACITY
    decreases |input| - start
  {
    if p <= start {
    } else {
      var e := ChunkEnd(input, delivery, start);
      if e < p {
        FilledWithinBuffer(input, delivery, e, p);
      }
    }
  }

  /// Bytes up to `q` are used out of a buffer that is filled once if it was empty at `p`.
  lemma FilledOnce(input: Text, delivery: Delivery, p: nat, q: nat)
    requires p <= q <= |input| && (p == q ==> p == |input|)
    requires var filled := Filled(input, delivery, 0, p);
             q <= if p == filled then ChunkEnd(input, delivery, p) else filled
    ensures var filled := Filled(input, delivery, 0, p);
            Filled(input, delivery, 0, q) == if p == filled then ChunkEnd(input, delivery, p) else filled
  {
    FilledOn(input, delivery, 0, p, q);
  }

  /// One read of at most `room` bytes at `pos`, with the stream read up to `filled`: past the buffer when that is empty
  /// and no larger than what is asked for.
  function OneRead(input: Text, delivery: Delivery, pos: nat, filled: nat, room: nat): (r: (nat, nat))
    requires pos <= filled <= |input|
    ensures pos <= r.0 <= r.1 <= |input| && filled <= r.1 && r.0 - pos <= room
    ensures r.1 - r.0 <= CAPACITY || r.1 == filled
  {
    if pos == filled && room >= CAPACITY then
      var n := Min(Min(room, if delivery(pos) == 0 then 1 else delivery(pos)), |input| - pos);
      (pos + n, pos + n)
    else
      var more := if pos == filled then ChunkEnd(input, delivery, pos) else filled;
      (pos + Min(room, more - pos), more)
  }

  /// Where reads of these sizes stop, and how far they have read the stream.
  function AfterReads(input: Text, delivery: Delivery, pos: nat, filled: nat, rooms: seq<nat>): (r: (nat, nat))
    requires pos <= filled <= |input|
    ensures pos <= r.0 <= r.1 <= |input| && filled <= r.1
  {
    if rooms == [] then (pos, filled)
    else
      var n := |rooms| - 1;
      var (p, f) := AfterReads(input, delivery, pos, filled, rooms[..n]);
      OneRead(input, delivery, p, f, rooms[n])
  }

  lemma OneMoreRead(input: Text, delivery: Delivery, pos: nat, filled: nat, rooms: seq<nat>, room: nat)
    requires pos <= filled <= |input|
    ensures var (p, f) := AfterReads(input, delivery, pos, filled, rooms);
            AfterReads(input, delivery, pos, filled, rooms + [room]) == OneRead(input, delivery, p, f, room)
  {
    assert (rooms + [room])[..|rooms|] == rooms;
  }

  /// Reads of a buffer or more into an empty buffer go past it, so they never run ahead.
  lemma {:induction false} LargeReadsKeepUp(input: Text, delivery: Delivery, pos: nat, rooms: seq<nat>)
    requires pos <= |input| && forall i :: 0 <= i < |rooms| ==> rooms[i] >= 8192
    ensures var (p, f) := AfterReads(input, delivery, pos, pos, rooms); p == f
  {
    if rooms == [] {
    } else {
      LargeReadsKeepUp(input, delivery, pos, rooms[..|rooms| - 1]);
    }
  }

  /// A smaller one fills the buffer with whatever the stream delivers; a buffer that holds something is used up first.
  lemma SmallReadRunsAhead(input: Text, delivery: Delivery, pos: nat, filled: nat, room: nat)
    requires pos <= filled <= |input|
    ensures var (p, f) := OneRead(input, delivery, pos, filled, room);
            && (pos < filled ==> f == filled && p == pos + Min(room, filled - pos))
            && (pos == filled && room < 8192 && delivery(pos) >= 8192 ==>
                  f == pos + Min(8192, |input| - pos) && p == pos + Min(room, f - pos))
  {}

  class Reader {
    const input: Text          // what arrives from where this reader starts
    const delivery: Delivery
    const end: End
    var pos: nat               // the next byte to hand out
    var filled: nat            // the bytes taken off the stream
    ghost var head: nat        // where the lines end
    ghost var rooms: seq<nat>  // the sizes of the reads since

    ghost predicate Valid()
      reads this
    {
      && pos <= filled <= |input| && filled - pos <= CAPACITY && head <= |input|
      && (pos, filled) == AfterReads(input, delivery, head, Filled(input, delivery, 0, head), rooms)
    }

    /// Only lines have been read.
    ghost predicate AtLines()
      reads this
    {
      Valid() && rooms == []
    }

    function Rest(): Text
      reads this
      requires pos <= |input|
    {
      input[pos..]
    }

    constructor (input: Text, delivery: Delivery, end: End)
      ensures AtLines() && Rest() == input
      ensures this.input == input && this.delivery == delivery && this.end == end
    {
      this.input, this.delivery, this.end := input, delivery, end;
      pos, filled, head, rooms := 0, 0, 0, [];
    }

    /// The bytes the buffer holds up to the first delimiter, after it was filled if it was empty.
    method TakePart(d: byte) returns (part: Text)
      requires pos <= filled <= |input|
      modifies this`pos, this`filled
      ensures filled == if old(pos) == old(filled) then ChunkEnd(input, delivery, old(pos)) else old(filled)
      ensures old(pos) <= pos <= filled && part == input[old(pos)..pos]
      ensures part == [] <==> old(pos) == |input|
      ensures d !in part || (d == part[|part| - 1] && d !in part[..|part| - 1])
    {
      if pos == filled {
        filled := ChunkEnd(input, delivery, pos);
      }
      var n := UntilLength(input[pos..filled], d);
      part := input[pos..filled][..n];
      pos := pos + n;
    }

    /// One buffer's worth of `read_until`.
    method ReadPart(d: byte) returns (part: Text)
      requires AtLines()
      modifies this`pos, this`filled, this`head
      ensures Valid() && old(Rest()) == part + Rest()
      ensures part == [] <==> old(Rest()) == []
      ensures d !in part || (d == part[|part| - 1] && d !in part[..|part| - 1])
    {
      ghost var p := pos;
      part := TakePart(d);
      head := pos;
      FilledOnce(input, delivery, p, pos);
      Split(input, p, pos);
    }

    /// `read_until`: however the stream delivers, the bytes up to and including the first `d`; without one, all there
    /// are or the stream's fault.
    method ReadUntil(d: byte) returns (r: Option<Text>)
      requires AtLines()
      modifies this`pos, this`filled, this`head
      ensures Valid() && r == TryUntil(old(Rest()), d, end) && Rest() == AfterUntil(old(Rest()), d)
      ensures r.Some? ==> old(Rest()) == r.value + Rest()
    {
      var chunk: Text := [];
      ghost var all := Rest();
      while true
        invariant AtLines() && all == chunk + Rest() && d !in chunk
        decreases |Rest()|
      {
        var part := ReadPart(d);
        Associative(chunk, part, Rest());
        ghost var before := chunk;
        chunk := chunk + part;
        if part == [] || part[|part| - 1] == d {
          UntilDone(all, d, before, part, Rest());
          return if part == [] && end.Broken? then None else Some(chunk);
        }
      }
    }

    /// A read of a limited number of bytes: past the buffer when that is empty and no larger than what is asked for.
    method ReadOnce(room: nat) returns (part: Text)
      requires pos <= filled <= |input|
      modifies this`pos, this`filled
      ensures (pos, filled) == OneRead(input, delivery, old(pos), old(filled), room)
      ensures part == input[old(pos)..pos] && (pos == old(pos) <==> room == 0 || old(pos) == |input|)
    {
      if pos == filled && room >= CAPACITY {
        var n := Min(Min(room, if delivery(pos) == 0 then 1 else delivery(pos)), |input| - pos);
        pos := pos + n;
        filled := pos;
        part := input[pos - n..pos];
      } else {
        if pos == filled {
          filled := ChunkEnd(input, delivery, pos);
        }
        var n := Min(room, filled - pos);
        pos := pos + n;
        part := input[pos - n..pos];
      }
    }

    /// The next bytes in order, or the stream's fault exactly where nothing is left.
    method ReadSome(room: nat) returns (ok: bool, part: Text)
      requires Valid()
      modifies this`pos, this`filled, this`rooms
      ensures Valid() && old(Rest()) == part + Rest() && pos == old(pos) + |part|
      ensures |part| <= room && (part == [] <==> room == 0 || old(Rest()) == [])
      ensures ok <==> end.Eof? || old(Rest()) != []
    {
      ghost var p := pos;
      ok := end.Eof? || pos < |input|;
      OneMoreRead(input, delivery, head, Filled(input, delivery, 0, head), rooms, room);
      part := ReadOnce(room);
      rooms := rooms + [room];
      Split(input, p, pos);
    }
  }

  lemma Split(input: Text, p: nat, q: nat)
    requires p <= q <= |input|
    ensures input[p..] == input[p..q] + input[q..]
  {}

  lemma UntilDone(all: Text, d: byte, before: Text, part: Text, rest: Text)
    requires all == before + part + rest && d !in before
    requires part == [] ==> rest == []
    requires part != [] ==> part[|part| - 1] == d && d !in part[..|part| - 1]
    ensures before + part == Until(all, d) && rest == AfterUntil(all, d)
    ensures d in Until(all, d) <==> part != []
  {
    if part == [] {
      assert all == before;
    } else {
      var front := before + part[..|part| - 1];
      assert all == front + [d] + rest;
      UntilFound(front, d, rest);
    }
  }

  /// A growing buffer.
  class Writer {
    var out: Text

    constructor ()
      ensures out == []
    {
      out := [];
    }

    method WriteAll(bytes: Text)
      modifies this
      ensures out == old(out) + bytes
    {
      out := out + bytes;
    }
  }
}
