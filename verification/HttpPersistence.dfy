/** When a connection is kept: told from the texts of the request, for single turns and for a conversation. */
module HttpPersistence {
  import opened Bytes
  import opened HttpText
  import opened HttpMethods
  import opened HttpReader
  import opened HttpHeaders
  import opened HeaderRoundTrip
  import opened HttpBody
  import opened HttpMessages
  import opened HttpLibraryMessages
  import opened HttpConversation
  import opened HeaderFailures

  /// The text in lower case, or with any of its letters upper-cased
  predicate Spells(t: Text, word: Text) {
    |t| == |word| && forall i :: 0 <= i < |t| ==> t[i] == word[i] || (97 <= word[i] <= 122 && t[i] == word[i] - 32)
  }

  /// The first value of the header "Connection" is this word, in any case.
  predicate FirstConnection(headers: Fields, word: Text) {
    var name := Ascii("Connection");
    name in headers && headers[name] != [] && Spells(headers[name][0], word)
  }

  lemma LowerSpells(t: Text, word: Text)
    requires forall i :: 0 <= i < |word| ==> !(65 <= word[i] <= 90)
    ensures LowerText(t) == word <==> Spells(t, word)
  {
    if Spells(t, word) {
      assert LowerText(t) == word;
    }
    if LowerText(t) == word {
      forall i | 0 <= i < |t|
        ensures t[i] == word[i] || (97 <= word[i] <= 122 && t[i] == word[i] - 32)
      {
        assert Lower(t[i]) == LowerText(t)[i];
      }
    }
  }

  /// For every version and all headers.
  predicate Keeping(version: Text, headers: Fields) {
    && !FirstConnection(headers, Ascii("close"))
    && (|| version == Ascii("HTTP/1.1") || version == Ascii("HTTP/2")
        || (version == Ascii("HTTP/1.0") && FirstConnection(headers, Ascii("keep-alive"))))
  }

  lemma WordsAreLower(close: Text, alive: Text)
    requires close == Ascii("close") && alive == Ascii("keep-alive")
    ensures close != [] && alive != []
    ensures forall i :: 0 <= i < |close| ==> !(65 <= close[i] <= 90)
    ensures forall i :: 0 <= i < |alive| ==> !(65 <= alive[i] <= 90)
  {}

  lemma PersistsExactly(version: Text, headers: Fields)
    ensures Persistent(version, headers) <==> Keeping(version, headers)
  {
    var close, alive := Ascii("close"), Ascii("keep-alive");
    WordsAreLower(close, alive);
    if Had(headers, ConnectionName()) != [] {
      LowerSpells(headers[ConnectionName()][0], close);
      LowerSpells(headers[ConnectionName()][0], alive);
    }
  }

  /// What a turn answers, by what reading its request comes to: a request that is read and can be answered is answered,
  /// and the connection is kept exactly for "HTTP/1.1" and "HTTP/2" without "close", and "HTTP/1.0" with "keep-alive";
  /// an invalid request is refused; everything else closes the connection in silence, or with the thread.
  ghost predicate Answers(found: Outcome<(Request, Text)>, writable: bool, reply: Reply) {
    match found
    case Done((r, _)) =>
      if writable then reply == Answered(StartLine(r.verb, r.uri, r.version), Keeping(r.version, r.headers))
      else reply == Dropped
    case Fails(InvalidRequest) => reply == if writable then Refused else Dropped
    case Fails(Unknown) => reply == Dropped
    case Fails(ConnectionClosed) => reply == Dropped
    case Fails(Timeout) => reply == Dropped
    case Panics => reply == Crashed
    case Hangs => false
  }

  lemma ReplyExactly(found: Outcome<(Request, Text)>, writable: bool)
    requires !found.Hangs?
    ensures Answers(found, writable, ReplyTo(found, writable))
  {
    if found.Done? {
      PersistsExactly(found.value.0.version, found.value.0.headers);
    }
  }

  lemma EndAnswers(
    input: Text, piece: Piece, found: Outcome<(Request, Text)>, headRest: Text, reply: Reply, left: Text)
    requires TurnEnds(input, piece, found, headRest, reply, left)
    ensures Answers(found, piece.writable, reply)
  {
    ReplyExactly(found, piece.writable);
  }

  /// For every turn.
  lemma TurnAnswers(before: Text, piece: Piece, reply: Reply, left: Text, isMime: Text -> bool)
    requires TurnOf(before, piece, reply, left, isMime)
    ensures Answers(RequestFound(before + piece.bytes, piece.kind, piece.takes, isMime), piece.writable, reply)
  {
    ReplyExactly(RequestFound(before + piece.bytes, piece.kind, piece.takes, isMime), piece.writable);
  }

  // ---------------------------------------------------------------- a conversation that is closed

  lemma NoLengthNoBody(m: Fields, rest: Text, end: End, isMime: Text -> bool)
    requires TransferEncoding() !in m && ContentLength() !in m
    ensures WithBody(m, rest, end, isMime) == Unread(m, rest, isMime) == Done((m, None, rest))
  {
    FrameExactly(m, isMime);
  }

  lemma OneHeaderBlock(name: Text, value: Text, end: End)
    requires GoodName(name) && Readable(value) && All(IsAscii, value)
    ensures ReadFields(FieldLine(name, value) + CRLF, end, map[]) == Done((map[name := [value]], []))
  {
    var m: Fields := map[name := [value]];
    OneHeaderLines(m, name, value);
    OneMoreGoodField(map[], name, value);
    assert m == map[][name := [value]];
    HeadersRoundTripExactly(m, [name], [], end);
    assert FieldLine(name, value) + CRLF + [] == FieldLine(name, value) + CRLF;
  }

  lemma WithMessage(start: StartLine, rest: Text, m: Fields, end: End, isMime: Text -> bool)
    requires ReadFields(rest, end, map[]) == Done((m, [])) && TransferEncoding() !in m && ContentLength() !in m
    ensures var r := Done((Request(start.verb, start.uri, start.version, m, None), []));
            RequestAfter(Done((start, rest)), end, isMime) == r == UnreadAfter(Done((start, rest)), end, isMime)
  {
    NoLengthNoBody(m, [], end, isMime);
  }

  lemma OneHeaderRequest(name: Text, value: Text, kind: IoKind, takes: bool, isMime: Text -> bool)
    requires GoodName(name) && Readable(value) && All(IsAscii, value)
    requires name != TransferEncoding() && name != ContentLength()
    ensures RequestFound(PING_LINE + (FieldLine(name, value) + CRLF), kind, takes, isMime)
         == Done((Request(GET, [47], Ascii("HTTP/1.1"), map[name := [value]], None), []))
  {
    var rest := FieldLine(name, value) + CRLF;
    PingLineIsRead(rest, Broken(kind));
    OneHeaderBlock(name, value, Broken(kind));
    WithMessage(PING, rest, map[name := [value]], Broken(kind), isMime);
  }

  lemma ConnectionIsGood(name: Text)
    requires name == Ascii("Connection")
    ensures GoodName(name) && name != TransferEncoding() && name != ContentLength()
  {
    assert Capitalised(name);
    assert [] + name == name;
    WordIsNormal([], name);
    CapitalisedIsToken(name);
    assert |TransferEncoding()| == 17 && |ContentLength()| == 14 && |name| == 10;
  }

  lemma CloseIsGood(value: Text)
    requires value == Ascii("close")
    ensures Readable(value) && All(IsAscii, value)
  {
    assert forall i :: 0 <= i < |value| ==> 97 <= value[i] <= 122;
  }

  /// A request that says "close"
  function CloseRequest(): Text {
    PING_LINE + (FieldLine(Ascii("Connection"), Ascii("close")) + CRLF)
  }

  lemma PingLineText(line: Text)
    requires line == Ascii("GET / HTTP/1.1\r\n")
    ensures line == PING_LINE
  {
    assert PING_LINE == Ascii("GET") + [SP] + ([47] + [SP] + (Ascii("HTTP/1.1") + CRLF));
  }

  lemma CloseRequestText(line: Text, rest: Text)
    requires line == Ascii("GET / HTTP/1.1\r\n") && rest == Ascii("Connection: close\r\n\r\n")
    ensures CloseRequest() == line + rest
  {
    PingLineText(line);
    assert rest == Ascii("Connection") + [58, 32] + Ascii("close") + [13, 10] + [13, 10];
  }

  lemma CloseIsRead(name: Text, value: Text, kind: IoKind, takes: bool, isMime: Text -> bool)
    requires name == Ascii("Connection") && value == Ascii("close")
    ensures RequestFound(CloseRequest(), kind, takes, isMime)
         == Done((Request(GET, [47], Ascii("HTTP/1.1"), map[name := [value]], None), []))
  {
    ConnectionIsGood(name);
    CloseIsGood(value);
    OneHeaderRequest(name, value, kind, takes, isMime);
  }

  lemma CloseIsAnswered(name: Text, value: Text, found: Outcome<(Request, Text)>, reply: Reply)
    requires name == Ascii("Connection") && value == Ascii("close")
    requires found == Done((Request(GET, [47], Ascii("HTTP/1.1"), map[name := [value]], None), []))
    requires Answers(found, true, reply)
    ensures reply == Answered(PING, false)
  {
    assert FirstConnection(map[name := [value]], value);
  }

  lemma CloseFound(kind: IoKind, takes: bool, reply: Reply, isMime: Text -> bool)
    ensures Answers(RequestFound(CloseRequest(), kind, takes, isMime), true, reply) ==> reply == Answered(PING, false)
  {
    var name, value := Ascii("Connection"), Ascii("close");
    var found := RequestFound(CloseRequest(), kind, takes, isMime);
    CloseIsRead(name, value, kind, takes, isMime);
    if Answers(found, true, reply) {
      CloseIsAnswered(name, value, found, reply);
    }
  }

  lemma CloseReply(first: Piece, reply: Reply, left: Text, isMime: Text -> bool)
    requires first.writable
    ensures first.bytes == CloseRequest() && TurnOf([], first, reply, left, isMime) ==> reply == Answered(PING, false)
  {
    if first.bytes == CloseRequest() && TurnOf([], first, reply, left, isMime) {
      AlonePiece(first, reply, left, isMime);
      EndAnswers(first.bytes, first, RequestIn(first, isMime), AfterHead(first.bytes, Broken(first.kind)), reply, left);
      CloseFound(first.kind, first.takes, reply, isMime);
    }
  }

  lemma FirstTurn(script: seq<Piece>, replies: seq<Reply>, lefts: seq<Text>, isMime: Text -> bool)
    requires Conversed(script, replies, lefts, isMime) && script != []
    ensures replies != [] && |lefts| == |replies| && TurnOf([], script[0], replies[0], lefts[0], isMime)
    ensures !KeepsOpen(script[0], replies[0]) ==> replies == [replies[0]]
  {
    TurnAt(script, replies, lefts, 0, isMime);
  }

  lemma CloseEnds(script: seq<Piece>, replies: seq<Reply>, lefts: seq<Text>, isMime: Text -> bool)
    requires |script| == 2 && script[0].bytes == CloseRequest() && script[0].writable
    requires Conversed(script, replies, lefts, isMime)
    ensures replies == [Answered(PING, false)]
  {
    FirstTurn(script, replies, lefts, isMime);
    CloseReply(script[0], replies[0], lefts[0], isMime);
  }

  /// For example: of two requests, the first of which says "close", only the first is ever looked at.
  lemma CloseEndsTheConversation(
    first: Piece, second: Piece, replies: seq<Reply>, lefts: seq<Text>, isMime: Text -> bool)
    requires first.writable
    ensures Conversed([first.(bytes := CloseRequest()), second], replies, lefts, isMime) ==>
              |replies| == 1 && replies[0] == Answered(PING, false)
  {
    var script := [first.(bytes := CloseRequest()), second];
    if Conversed(script, replies, lefts, isMime) {
      CloseEnds(script, replies, lefts, isMime);
    }
  }
}
