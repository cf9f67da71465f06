/**
 A conversation over a connection of the server: every request is read through a buffer of its own, and what that buffer
 holds beyond the request is dropped with it.  Which requests are answered, and what is lost, exactly.
 */
module HttpConversation {
  import opened Bytes
  import opened HttpText
  import opened Utf8
  import opened HttpMethods
  import opened HttpReader
  import opened HttpHeaders
  import opened HeaderRoundTrip
  import opened HttpStatus
  import opened HttpBody
  import opened HttpMessages
  import opened HttpLibraryMessages
  import opened HttpConnection

  // ---------------------------------------------------------------- one turn

  function ConnectionName(): Text { Ascii("Connection") }

  /// `to_lowercase`, for values that were read: none of their characters outside ASCII has a lower case in ASCII.
  function LowerText(t: Text): Text {
    seq(|t|, i requires 0 <= i < |t| => Lower(t[i]))
  }

  /// `is_connection_persistent`
  predicate Persistent(version: Text, headers: Fields) {
    var value := if Had(headers, ConnectionName()) == [] then [] else LowerText(headers[ConnectionName()][0]);
    && value != Ascii("close")
    && (|| version == Version11() || version == Ascii("HTTP/2")
        || (version == Ascii("HTTP/1.0") && value == Ascii("keep-alive")))
  }

  /// How a turn ends for the peer.
  datatype Reply =
    | Answered(line: StartLine, open: bool)  // the request was handled and its answer written
    | Refused                                // the answer says the request was bad, and the connection is closed
    | Dropped                                // the connection is closed without an answer
    | Crashed                                // the thread of the connection panics

  /// The connection is kept for another turn.
  predicate StaysOpen(reply: Reply) {
    reply.Answered? && reply.open
  }

  /// `handle_connection`, for what reading the request comes to.  `writable` says whether the answer can be written.
  function ReplyTo(request: Outcome<(Request, Text)>, writable: bool): Reply
    requires !request.Hangs?
  {
    match request
    case Done((r, _)) =>
      if writable then Answered(StartLine(r.verb, r.uri, r.version), Persistent(r.version, r.headers)) else Dropped
    case Fails(e) => if e.InvalidRequest? && writable then Refused else Dropped
    case Panics => Crashed
  }

  lemma {:induction false} FieldsNeverHang(input: Text, kind: IoKind, m: Fields)
    ensures !ReadFields(input, Broken(kind), m).Hangs?
    decreases |input|
  {
    var n := LineLength(input);
    if n == 0 {
    } else {
      PanicsExactly(input[..n]);
      if ParsedLine(input[..n]).Done? && ParsedLine(input[..n]).value.Some? {
        var h := ParsedLine(input[..n]).value.value;
        FieldsNeverHang(input[n..], kind, AddField(m, h.name, h.value));
      }
    }
  }

  lemma MessageNeverHangs(input: Text, kind: IoKind, isMime: Text -> bool)
    ensures !ReadMessage(input, Broken(kind), isMime).Hangs?
    ensures !ReadUnreadMessage(input, Broken(kind), isMime).Hangs?
  {
    FieldsNeverHang(input, kind, map[]);
    var r := ReadFields(input, Broken(kind), map[]);
    if r.Done? {
      FrameExactly(r.value.0, isMime);
    }
  }

  lemma LineNeverHangs(input: Text, end: End)
    ensures !ReadRequestLine(input, end).Hangs?
  {}

  lemma AfterLineNeverHangs(start: Outcome<(StartLine, Text)>, kind: IoKind, isMime: Text -> bool)
    requires !start.Hangs?
    ensures !RequestAfter(start, Broken(kind), isMime).Hangs? && !UnreadAfter(start, Broken(kind), isMime).Hangs?
  {
    if start.Done? {
      MessageNeverHangs(start.value.1, kind, isMime);
    }
  }

  /// A stream that fails where nothing arrives is never read for ever.
  lemma NeverHangs(input: Text, kind: IoKind, isMime: Text -> bool)
    ensures !ReadRequest(input, Broken(kind), isMime).Hangs?
    ensures !ReadUnread(input, Broken(kind), isMime).Hangs?
  {
    LineNeverHangs(input, Broken(kind));
    AfterLineNeverHangs(ReadRequestLine(input, Broken(kind)), kind, isMime);
  }

  /// What the peer sends for one turn, how it arrives and the fault a read meets behind it; whether the handler takes
  /// the body out of the request, and whether the answer can be written and flushed.
  datatype Piece = Piece(
    bytes: Text, delivery: Delivery, kind: IoKind, takes: bool, writable: bool, flushed: bool)

  /// The request a turn finds: its body is read, unless the handler takes it.
  function RequestFound(input: Text, kind: IoKind, takes: bool, isMime: Text -> bool): Outcome<(Request, Text)> {
    if takes then ReadUnread(input, Broken(kind), isMime) else ReadRequest(input, Broken(kind), isMime)
  }

  /// From `head` on, where the body of a request would begin, the handler and `ensure_read` read in these sizes: what
  /// is left for the next turn.  A body that is not taken is read to its end, behind which `after` follows.
  ghost predicate LeftAfter(
    input: Text, delivery: Delivery, takes: bool, body: Option<Content>, head: nat, after: Text, rooms: seq<nat>,
    left: Text)
    requires head <= |input|
  {
    var (pos, filled) := AfterReads(input, delivery, head, Filled(input, delivery, 0, head), rooms);
    && left == input[filled..]
    && (body.None? ==> rooms == [])
    && (if takes then pos <= head + AnnouncedLength(body) else after == input[pos..])
  }

  ghost predicate Leaves(
    input: Text, piece: Piece, body: Option<Content>, head: nat, after: Text, left: Text)
    requires head <= |input|
  {
    exists rooms :: LeftAfter(input, piece.delivery, piece.takes, body, head, after, rooms, left)
  }

  /// How a turn ends that finds `input` and the request `found` in it, with `headRest` behind the head of the request:
  /// with `left` for the next.
  ghost predicate TurnEnds(
    input: Text, piece: Piece, found: Outcome<(Request, Text)>, headRest: Text, reply: Reply, left: Text)
  {
    && !found.Hangs? && reply == ReplyTo(found, piece.writable)
    && (found.Done? ==>
          && |headRest| <= |input|
          && (piece.takes ==> found.value.1 == headRest)
          && Leaves(input, piece, found.value.0.body, |input| - |headRest|, found.value.1, left))
  }

  /// The turn of a piece that arrives behind `before`.
  ghost predicate TurnOf(before: Text, piece: Piece, reply: Reply, left: Text, isMime: Text -> bool) {
    var input := before + piece.bytes;
    TurnEnds(input, piece, RequestFound(input, piece.kind, piece.takes, isMime), AfterHead(input, Broken(piece.kind)),
             reply, left)
  }

  /// The conversation goes on after the turn.
  predicate KeepsOpen(piece: Piece, reply: Reply) {
    StaysOpen(reply) && piece.flushed
  }

  /// A request with nothing sent behind what is read of it leaves nothing behind.
  lemma NothingIsLeft(
    input: Text, piece: Piece, found: Outcome<(Request, Text)>, headRest: Text, reply: Reply, left: Text)
    requires TurnEnds(input, piece, found, headRest, reply, left)
    ensures found.Done? && found.value.1 == [] ==> left == []
    ensures StaysOpen(reply) ==> found.Done?
  {}

  // ---------------------------------------------------------------- the conversation

  /// What the turn before left.
  function Before(lefts: seq<Text>, i: nat): Text
    requires i <= |lefts|
  {
    if i == 0 then [] else lefts[i - 1]
  }

  predicate GoesOn(script: seq<Piece>, replies: seq<Reply>)
    requires |replies| <= |script|
  {
    replies == [] || KeepsOpen(script[|replies| - 1], replies[|replies| - 1])
  }

  /// Piece by piece, every reply and what is left belong to the piece and to what was left before, and all turns but
  /// the last keep the conversation.
  ghost predicate InStep(
    script: seq<Piece>, replies: seq<Reply>, lefts: seq<Text>, belongs: (Text, Piece, Reply, Text) -> bool)
  {
    && |lefts| == |replies| <= |script|
    && (forall i :: 0 <= i < |replies| ==> belongs(Before(lefts, i), script[i], replies[i], lefts[i]))
    && (forall i :: 0 <= i < |replies| - 1 ==> KeepsOpen(script[i], replies[i]))
  }

  lemma OneMoreInStep(
    script: seq<Piece>, replies: seq<Reply>, lefts: seq<Text>, reply: Reply, left: Text,
    belongs: (Text, Piece, Reply, Text) -> bool)
    requires InStep(script, replies, lefts, belongs) && GoesOn(script, replies) && |replies| < |script|
    requires belongs(Before(lefts, |lefts|), script[|replies|], reply, left)
    ensures InStep(script, replies + [reply], lefts + [left], belongs)
  {
    var all := lefts + [left];
    forall i | 0 <= i <= |replies|
      ensures belongs(Before(all, i), script[i], (replies + [reply])[i], all[i])
    {
      assert Before(all, i) == Before(lefts, i);
    }
  }

  /// Every turn so far is that of its piece.
  ghost predicate SoFar(script: seq<Piece>, replies: seq<Reply>, lefts: seq<Text>, isMime: Text -> bool) {
    InStep(script, replies, lefts, (before, piece, reply, left) => TurnOf(before, piece, reply, left, isMime))
  }

  lemma OneMoreTurn(
    script: seq<Piece>, replies: seq<Reply>, lefts: seq<Text>, reply: Reply, left: Text, isMime: Text -> bool)
    requires SoFar(script, replies, lefts, isMime) && GoesOn(script, replies) && |replies| < |script|
    requires TurnOf(Before(lefts, |lefts|), script[|replies|], reply, left, isMime)
    ensures SoFar(script, replies + [reply], lefts + [left], isMime)
  {
    OneMoreInStep(script, replies, lefts, reply, left,
                  (before, piece, reply, left) => TurnOf(before, piece, reply, left, isMime));
  }

  /// And the script is through, or the last turn closes the connection.
  ghost predicate Conversed(script: seq<Piece>, replies: seq<Reply>, lefts: seq<Text>, isMime: Text -> bool) {
    SoFar(script, replies, lefts, isMime) && (|replies| < |script| ==> !GoesOn(script, replies))
  }

  /// The stream of a connection, with what the peer has sent and nobody has read.
  class Socket {
    var pending: Text

    constructor ()
      ensures pending == []
    {
      pending := [];
    }

    method Receive(bytes: Text)
      modifies this
      ensures pending == old(pending) + bytes
    {
      pending := pending + bytes;
    }

    /// `handle_connection`
    method Turn(piece: Piece, isMime: Text -> bool) returns (reply: Reply)
      modifies this
      ensures TurnEnds(
                old(pending), piece, RequestFound(old(pending), piece.kind, piece.takes, isMime),
                AfterHead(old(pending), Broken(piece.kind)), reply, pending)
    {
      NeverHangs(pending, piece.kind, isMime);
      var reader := new Reader(pending, piece.delivery, Broken(piece.kind));
      var r := OneRequest(reader, isMime, piece.takes);
      reply := Answer(piece, reader, r, RequestFound(pending, piece.kind, piece.takes, isMime),
                      AfterHead(pending, Broken(piece.kind)));
    }

    /// The part of `handle_connection` behind the reading of the request.
    method Answer(
      piece: Piece, reader: Reader, r: Outcome<(StartLine, Fields)>, ghost found: Outcome<(Request, Text)>,
      ghost headRest: Text)
      returns (reply: Reply)
      requires reader.Valid() && reader.input == pending && reader.delivery == piece.delivery
      requires HandledAs(reader, piece.takes, r, found, headRest) && !found.Hangs?
      modifies this
      ensures TurnEnds(old(pending), piece, found, headRest, reply, pending)
    {
      match r {
        case Done((line, fields)) =>
          assert |headRest| == |pending| - reader.head;
          assert LeftAfter(pending, piece.delivery, piece.takes, found.value.0.body, reader.head, found.value.1,
                           reader.rooms, pending[reader.filled..]);
          reply := if piece.writable then Answered(line, Persistent(line.version, fields)) else Dropped;
        case Fails(e) => reply := if e.InvalidRequest? && piece.writable then Refused else Dropped;
        case Panics => reply := Crashed;
      }
      pending := pending[reader.filled..];
    }

    /// `handle_conversation` with a peer that sends the next piece of its script once it has been answered.
    method Conversation(script: seq<Piece>, isMime: Text -> bool)
      returns (replies: seq<Reply>, ghost lefts: seq<Text>)
      requires pending == []
      modifies this
      ensures Conversed(script, replies, lefts, isMime)
    {
      replies, lefts := [], [];
      var open := true;
      while open && |replies| < |script|
        invariant SoFar(script, replies, lefts, isMime)
        invariant open <==> GoesOn(script, replies)
        invariant pending == Before(lefts, |lefts|)
        decreases |script| - |replies|
      {
        var piece := script[|replies|];
        Receive(piece.bytes);
        var reply := Turn(piece, isMime);
        OneMoreTurn(script, replies, lefts, reply, pending, isMime);
        open := KeepsOpen(piece, reply);
        replies, lefts := replies + [reply], lefts + [pending];
      }
    }
  }

  // ---------------------------------------------------------------- which requests are answered

  function RequestIn(piece: Piece, isMime: Text -> bool): Outcome<(Request, Text)> {
    RequestFound(piece.bytes, piece.kind, piece.takes, isMime)
  }

  /// The peer sent nothing behind what is read of the request.
  predicate NothingBehind(piece: Piece, isMime: Text -> bool) {
    RequestIn(piece, isMime).Done? ==> RequestIn(piece, isMime).value.1 == []
  }

  ghost predicate AllClear(script: seq<Piece>, isMime: Text -> bool) {
    forall i :: 0 <= i < |script| ==> NothingBehind(script[i], isMime)
  }

  lemma AlonePiece(piece: Piece, reply: Reply, left: Text, isMime: Text -> bool)
    ensures TurnOf([], piece, reply, left, isMime) <==>
              TurnEnds(piece.bytes, piece, RequestIn(piece, isMime), AfterHead(piece.bytes, Broken(piece.kind)), reply,
                       left)
  {
    assert [] + piece.bytes == piece.bytes;
  }

  lemma ClearPiece(piece: Piece, reply: Reply, left: Text, isMime: Text -> bool)
    requires TurnOf([], piece, reply, left, isMime) && NothingBehind(piece, isMime)
    ensures !RequestIn(piece, isMime).Hangs? && reply == ReplyTo(RequestIn(piece, isMime), piece.writable)
    ensures StaysOpen(reply) ==> left == []
  {
    AlonePiece(piece, reply, left, isMime);
    NothingIsLeft(piece.bytes, piece, RequestIn(piece, isMime), AfterHead(piece.bytes, Broken(piece.kind)), reply,
                  left);
  }

  lemma {:induction false} NothingBefore(lefts: seq<Text>, i: nat)
    requires i < |lefts|
    requires forall j: nat :: j + 1 < |lefts| && Before(lefts, j) == [] ==> lefts[j] == []
    ensures Before(lefts, i) == []
  {
    if i == 0 {
    } else {
      NothingBefore(lefts, i - 1);
    }
  }

  lemma TurnAt(script: seq<Piece>, replies: seq<Reply>, lefts: seq<Text>, i: nat, isMime: Text -> bool)
    requires SoFar(script, replies, lefts, isMime) && i < |replies|
    ensures |lefts| == |replies| <= |script| && TurnOf(Before(lefts, i), script[i], replies[i], lefts[i], isMime)
    ensures i + 1 < |replies| ==> KeepsOpen(script[i], replies[i])
  {
    var belongs := (before, piece, reply, left) => TurnOf(before, piece, reply, left, isMime);
    assert belongs(Before(lefts, i), script[i], replies[i], lefts[i]);
  }

  /// If no piece holds bytes behind a request, every turn finds its own piece alone.
  lemma EachOnItsOwn(
    script: seq<Piece>, replies: seq<Reply>, lefts: seq<Text>, i: nat, isMime: Text -> bool)
    requires SoFar(script, replies, lefts, isMime) && AllClear(script, isMime) && i < |replies|
    ensures !RequestIn(script[i], isMime).Hangs?
    ensures replies[i] == ReplyTo(RequestIn(script[i], isMime), script[i].writable)
  {
    forall j: nat | j + 1 < |lefts| && Before(lefts, j) == []
      ensures lefts[j] == []
    {
      TurnAt(script, replies, lefts, j, isMime);
      ClearPiece(script[j], replies[j], lefts[j], isMime);
    }
    TurnAt(script, replies, lefts, i, isMime);
    NothingBefore(lefts, i);
    ClearPiece(script[i], replies[i], lefts[i], isMime);
  }

  /// The piece is one request and nothing else, its body complete, and its answer can be written.
  predicate OneWhole(piece: Piece, isMime: Text -> bool) {
    piece.writable && RequestIn(piece, isMime).Done? && RequestIn(piece, isMime).value.1 == []
  }

  /// The request lets the connection be kept, and its answer can be flushed.
  predicate Keeps(piece: Piece, isMime: Text -> bool) {
    var r := RequestIn(piece, isMime);
    r.Done? && Persistent(r.value.0.version, r.value.0.headers) && piece.flushed
  }

  lemma WholeReply(piece: Piece, reply: Reply, isMime: Text -> bool)
    ensures OneWhole(piece, isMime) && reply == ReplyTo(RequestIn(piece, isMime), piece.writable) ==>
              reply.Answered? && (KeepsOpen(piece, reply) <==> Keeps(piece, isMime))
  {}

  /// Only requests that keep the connection come before number `k`.
  ghost predicate Reached(script: seq<Piece>, k: nat, isMime: Text -> bool) {
    k < |script| && forall j :: 0 <= j < k ==> Keeps(script[j], isMime)
  }

  /// If every piece is one whole request, exactly those are answered that only persistent ones come before: all up to
  /// and including the first that is not persistent or not flushed.
  lemma AnsweredExactly(script: seq<Piece>, replies: seq<Reply>, lefts: seq<Text>, isMime: Text -> bool)
    requires forall i :: 0 <= i < |script| ==> OneWhole(script[i], isMime)
    requires Conversed(script, replies, lefts, isMime)
    ensures forall i :: 0 <= i < |replies| ==> replies[i].Answered?
    ensures forall k: nat :: k < |replies| <==> Reached(script, k, isMime)
  {
    assert AllClear(script, isMime) by {
      forall i | 0 <= i < |script| ensures NothingBehind(script[i], isMime) {
        assert OneWhole(script[i], isMime);
      }
    }
    forall i | 0 <= i < |replies|
      ensures replies[i].Answered? && (KeepsOpen(script[i], replies[i]) <==> Keeps(script[i], isMime))
    {
      assert OneWhole(script[i], isMime);
      EachOnItsOwn(script, replies, lefts, i, isMime);
      WholeReply(script[i], replies[i], isMime);
    }
    forall k: nat ensures k < |replies| <==> Reached(script, k, isMime) {
      if |replies| <= k < |script| {
        assert !Keeps(script[|replies| - 1], isMime);
      }
    }
  }

  // ---------------------------------------------------------------- what is lost

  /// What was sent behind a request is still there for the next turn exactly when the reads of its body stop at the end
  /// of what was taken off the stream.
  lemma NextRequestIsThereExactly(
    input: Text, delivery: Delivery, body: Option<Content>, head: nat, after: Text, rooms: seq<nat>, left: Text)
    requires head <= |input| && LeftAfter(input, delivery, false, body, head, after, rooms, left)
    ensures |after| <= |input|
    ensures left == after <==>
              AfterReads(input, delivery, head, Filled(input, delivery, 0, head), rooms).1 == |input| - |after|
    ensures body.None? ==> (left == after <==> Filled(input, delivery, 0, head) == head)
  {
    var (pos, filled) := AfterReads(input, delivery, head, Filled(input, delivery, 0, head), rooms);
    assert |left| == |input| - filled && |after| == |input| - pos;
  }

  lemma {:induction false} AheadWithinBuffer(
    input: Text, delivery: Delivery, pos: nat, filled: nat, rooms: seq<nat>)
    requires pos <= filled <= |input| && filled - pos <= CAPACITY
    ensures var (p, f) := AfterReads(input, delivery, pos, filled, rooms); f - p <= CAPACITY
  {
    if rooms == [] {
    } else {
      AheadWithinBuffer(input, delivery, pos, filled, rooms[..|rooms| - 1]);
    }
  }

  /// No more than a buffer is lost.
  lemma LostWithinBuffer(
    input: Text, delivery: Delivery, body: Option<Content>, head: nat, after: Text, rooms: seq<nat>, left: Text)
    requires head <= |input| && LeftAfter(input, delivery, false, body, head, after, rooms, left)
    ensures |left| <= |after| <= |left| + CAPACITY && left == after[|after| - |left|..]
  {
    FilledWithinBuffer(input, delivery, 0, head);
    AheadWithinBuffer(input, delivery, head, Filled(input, delivery, 0, head), rooms);
  }

  /// If everything arrives in one chunk, everything behind the head of a request is gone after its turn.
  lemma PipelinedRequestIsLost(
    input: Text, piece: Piece, found: Outcome<(Request, Text)>, headRest: Text, reply: Reply, left: Text)
    requires TurnEnds(input, piece, found, headRest, reply, left) && found.Done?
    requires |headRest| < |input| <= CAPACITY && |input| <= piece.delivery(0)
    ensures left == []
  {
    assert ChunkEnd(input, piece.delivery, 0) == |input|;
  }

  /// A body that a handler takes and does not read is left for the next turn, as if it were a request, exactly when a
  /// chunk ends with the head.
  lemma TakenBodyIsNextExactly(
    input: Text, delivery: Delivery, body: Option<Content>, head: nat, left: Text)
    requires head <= |input| && LeftAfter(input, delivery, true, body, head, input[head..], [], left)
    ensures left == input[head..] <==> Filled(input, delivery, 0, head) == head
  {
    assert |left| == |input| - Filled(input, delivery, 0, head);
  }

  lemma NoBodyToTake(headers: Fields, rest: Text, end: End, isMime: Text -> bool)
    ensures Unread(headers, rest, isMime).Done? && Unread(headers, rest, isMime).value.1.None? ==>
              WithBody(headers, rest, end, isMime) == Unread(headers, rest, isMime)
  {}

  lemma NoBodyToTakeAfter(start: Outcome<(StartLine, Text)>, end: End, isMime: Text -> bool)
    ensures var found := UnreadAfter(start, end, isMime);
            found.Done? && found.value.0.body.None? ==> RequestAfter(start, end, isMime) == found
  {
    if start.Done? {
      var fields := ReadFields(start.value.1, end, map[]);
      if fields.Done? {
        NoBodyToTake(fields.value.0, fields.value.1, end, isMime);
      }
    }
  }

  /// Taking the body of a request that has none changes nothing.
  lemma NothingToTake(input: Text, kind: IoKind, isMime: Text -> bool)
    ensures var found := ReadUnread(input, Broken(kind), isMime);
            found.Done? && found.value.0.body.None? ==> ReadRequest(input, Broken(kind), isMime) == found
  {
    NoBodyToTakeAfter(ReadRequestLine(input, Broken(kind)), Broken(kind), isMime);
  }

  const PING: StartLine := StartLine(GET, [SLASH], Version11())

  function Ping(): Text {
    RequestText(Request(PING.verb, PING.uri, PING.version, map[], None), [ContentLength()])
  }

  lemma PingIsGood(next: Text, end: End, isMime: Text -> bool)
    ensures GoodMessage(map[], None, next, end, isMime)
    ensures IsOrder(Announced(map[], None), [ContentLength()])
  {
    AnnouncedIsGood(map[]);
    HeaderNamesDiffer();
  }

  lemma AsciiIsGood(uri: Text, version: Text)
    requires All(IsAscii, uri) && uri != [] && SP !in uri
    requires All(IsAscii, version) && version != [] && LF !in version
    ensures GoodUri(uri) && GoodVersion(version)
  {
    LossyAscii(uri);
    LossyAscii(version);
  }

  lemma PingLineIsGood()
    ensures GoodUri(PING.uri) && GoodVersion(PING.version)
  {
    AsciiIsGood(PING.uri, PING.version);
  }

  lemma PingKeepsTheConnection()
    ensures Persistent(PING.version, Announced(map[], None))
  {
    assert |ConnectionName()| == 10 && |ContentLength()| == 14;
    assert |Ascii("close")| == 5;
  }

  lemma PingIsRead(next: Text, end: End, isMime: Text -> bool)
    ensures ReadRequest(Ping() + next, end, isMime)
         == Done((Request(PING.verb, PING.uri, PING.version, Announced(map[], None), None), next))
  {
    PingLineIsGood();
    PingIsGood(next, end, isMime);
    RequestRoundTripsExactly(PING, map[], None, [ContentLength()], next, end, isMime);
  }

  lemma PingLength()
    ensures 0 < |Ping()| <= 100
  {
    var m: Fields := Announced(map[], None);
    assert m[ContentLength()] == [] + [ZERO] == [ZERO];
    var none: seq<Text> := [];
    assert [ContentLength()][1..] == none && [ZERO][1..] == none;
    assert AllLines(m, none) == [] && FieldLines(ContentLength(), none) == [];
    assert |FieldLine(ContentLength(), ZERO)| <= 20;
    assert FieldLines(ContentLength(), [ZERO]) == FieldLine(ContentLength(), ZERO) + [];
    assert AllLines(m, [ContentLength()]) == FieldLines(ContentLength(), [ZERO]) + [];
  }

  /// Where nothing is left, the next turn ends without an answer, whatever the fault.
  lemma NothingLeftIsDropped(kind: IoKind, writable: bool, isMime: Text -> bool)
    ensures ReadRequest([], Broken(kind), isMime) == Fails(FromIo(kind))
    ensures ReplyTo(ReadRequest([], Broken(kind), isMime), writable) == Dropped
  {
    assert TryUntil([], SP, Broken(kind)) == None;
  }

  lemma PingReply(found: Outcome<(Request, Text)>, next: Text)
    requires found == Done((Request(PING.verb, PING.uri, PING.version, Announced(map[], None), None), next))
    ensures ReplyTo(found, true) == Answered(PING, true)
  {
    PingKeepsTheConnection();
  }

  lemma PingInOneChunk(
    input: Text, piece: Piece, found: Outcome<(Request, Text)>, next: Text, headRest: Text, reply: Reply, left: Text)
    requires found == Done((Request(PING.verb, PING.uri, PING.version, Announced(map[], None), None), next))
    requires TurnEnds(input, piece, found, headRest, reply, left) && piece.writable && !piece.takes
    requires |next| < |input| <= CAPACITY <= piece.delivery(0)
    ensures reply == Answered(PING, true) && left == []
  {
    PingReply(found, next);
    PipelinedRequestIsLost(input, piece, found, headRest, reply, left);
  }

  lemma TwoPingsInOneChunk(piece: Piece, reply: Reply, left: Text, isMime: Text -> bool)
    requires piece.delivery(0) >= CAPACITY && piece.writable && !piece.takes
    ensures piece.bytes == Ping() + Ping() && TurnOf([], piece, reply, left, isMime) ==>
              reply == Answered(PING, true) && left == []
  {
    if piece.bytes == Ping() + Ping() && TurnOf([], piece, reply, left, isMime) {
      AlonePiece(piece, reply, left, isMime);
      PingIsRead(Ping(), Broken(piece.kind), isMime);
      PingLength();
      PingInOneChunk(piece.bytes, piece, RequestIn(piece, isMime), Ping(), AfterHead(piece.bytes, Broken(piece.kind)),
                     reply, left);
    }
  }

  /// For example: of two small requests that arrive together, the first is answered and the connection kept, but the
  /// second is gone, and the peer that waits for its answer gets none.
  lemma SecondPingIsLost(piece: Piece, reply: Reply, left: Text, isMime: Text -> bool)
    requires piece.delivery(0) >= CAPACITY && piece.writable && !piece.takes
    ensures TurnOf([], piece.(bytes := Ping() + Ping()), reply, left, isMime) ==>
              reply == Answered(PING, true) && left == []
    ensures forall k: IoKind :: ReplyTo(ReadRequest([], Broken(k), isMime), true) == Dropped
  {
    var both := piece.(bytes := Ping() + Ping());
    if TurnOf([], both, reply, left, isMime) {
      TwoPingsInOneChunk(both, reply, left, isMime);
    }
    forall k: IoKind ensures ReplyTo(ReadRequest([], Broken(k), isMime), true) == Dropped {
      NothingLeftIsDropped(k, true, isMime);
    }
  }

  lemma PingAnswered(
    input: Text, piece: Piece, found: Outcome<(Request, Text)>, headRest: Text, reply: Reply, left: Text)
    requires found == Done((Request(PING.verb, PING.uri, PING.version, Announced(map[], None), None), []))
    requires TurnEnds(input, piece, found, headRest, reply, left) && piece.writable
    ensures reply == Answered(PING, true) && left == []
  {
    PingReply(found, []);
    NothingIsLeft(input, piece, found, headRest, reply, left);
  }

  lemma PingTurn(before: Text, piece: Piece, reply: Reply, left: Text, isMime: Text -> bool)
    requires piece.writable && !piece.takes
    ensures before + piece.bytes == Ping() + [] && TurnOf(before, piece, reply, left, isMime) ==>
              reply == Answered(PING, true) && left == []
  {
    if before + piece.bytes == Ping() + [] && TurnOf(before, piece, reply, left, isMime) {
      PingIsRead([], Broken(piece.kind), isMime);
      PingAnswered(Ping() + [], piece, ReadRequest(Ping() + [], Broken(piece.kind), isMime),
                   AfterHead(Ping() + [], Broken(piece.kind)), reply, left);
    }
  }

  /// For example: where the body of a request is a small request itself, is taken and not read, and the head arrives in
  /// chunks of its own, the next turn answers the body.
  lemma TakenPingIsAnswered(
    input: Text, delivery: Delivery, body: Option<Content>, head: nat, left: Text, next: Piece, reply: Reply,
    leftNext: Text, isMime: Text -> bool)
    requires head <= |input| && next.bytes == [] && next.writable && !next.takes
    ensures && input[head..] == Ping() && Filled(input, delivery, 0, head) == head
            && LeftAfter(input, delivery, true, body, head, Ping(), [], left)
            && TurnOf(left, next, reply, leftNext, isMime)
            ==> reply == Answered(PING, true) && leftNext == []
  {
    if && input[head..] == Ping() && Filled(input, delivery, 0, head) == head
       && LeftAfter(input, delivery, true, body, head, Ping(), [], left)
       && TurnOf(left, next, reply, leftNext, isMime) {
      TakenBodyIsNextExactly(input, delivery, body, head, left);
      assert left + next.bytes == Ping() + [];
      PingTurn(left, next, reply, leftNext, isMime);
    }
  }
}
