/** Whole messages: written in one piece, read back, and exactly which ones come back. */
module HttpMessages {
  import opened Bytes
  import opened HttpText
  import opened Utf8
  import opened HttpMethods
  import opened HttpReader
  import opened HttpHeaders
  import opened HeaderRoundTrip
  import opened HttpStatus
  import opened HttpBody

  /// A body as a value: what it announces and the bytes its reader yields.
  datatype Content = Content(contentType: Option<Text>, length: nat, bytes: Text)

  datatype Response = Response(status: StatusCode, headers: Fields, body: Option<Content>)

  datatype Request = Request(verb: HttpMethod, uri: Text, version: Text, headers: Fields, body: Option<Content>)

  // ---------------------------------------------------------------- writing

  const ZERO: Text := Decimal(0)

  /// A message without a body is given a `Content-Length` of zero.
  function Announced(headers: Fields, body: Option<Content>): Fields {
    if body.None? then AddField(headers, ContentLength(), ZERO) else headers
  }

  function BodyBytes(body: Option<Content>): Text {
    match body
    case None => []
    case Some(content) => content.bytes
  }

  /// What follows the start line.
  function MessageText(headers: Fields, order: seq<Text>, body: Option<Content>): Text
    requires forall i :: 0 <= i < |order| ==> order[i] in Announced(headers, body)
  {
    AllLines(Announced(headers, body), order) + CRLF + BodyBytes(body)
  }

  function ResponseText(response: Response, order: seq<Text>): Text
    requires forall i :: 0 <= i < |order| ==> order[i] in Announced(response.headers, response.body)
  {
    StatusLine(response.status) + MessageText(response.headers, order, response.body)
  }

  function RequestLine(verb: HttpMethod, uri: Text, version: Text): Text {
    Ascii(verb.Name()) + [SP] + (uri + [SP] + (version + CRLF))
  }

  function RequestText(request: Request, order: seq<Text>): Text
    requires forall i :: 0 <= i < |order| ==> order[i] in Announced(request.headers, request.body)
  {
    RequestLine(request.verb, request.uri, request.version) + MessageText(request.headers, order, request.body)
  }

  // ---------------------------------------------------------------- reading

  /// The headers and the body they frame at the start of `rest`, and what follows the whole message.
  function WithBody(headers: Fields, rest: Text, end: End, isMime: Text -> bool)
    : Outcome<(Fields, Option<Content>, Text)>
  {
    match FrameOf(headers, isMime)
    case Done(None) => Done((headers, None, rest))
    case Done(Some(frame)) =>
      if frame.length > |rest| && end.Broken? then Fails(FromIo(end.kind))
      else
        var n := Min(frame.length, |rest|);
        Done((headers, Some(Content(frame.contentType, frame.length, rest[..n])), rest[n..]))
    case Fails(e) => Fails(e)
    case Panics => Panics
    case Hangs => Hangs
  }

  /// What follows a start line.
  function ReadMessage(input: Text, end: End, isMime: Text -> bool): Outcome<(Fields, Option<Content>, Text)> {
    match ReadFields(input, end, map[])
    case Done((headers, rest)) => WithBody(headers, rest, end, isMime)
    case Fails(e) => Fails(e)
    case Panics => Panics
    case Hangs => Hangs
  }

  /// `Response::read_from`, with the body read to its end.
  function ReadResponse(input: Text, end: End, isMime: Text -> bool): Outcome<(Response, Text)> {
    ResponseAfter(ReadStatusLine(input, end), end, isMime)
  }

  function ResponseAfter(line: Outcome<(StatusCode, Text)>, end: End, isMime: Text -> bool): Outcome<(Response, Text)> {
    match line
    case Done((status, rest)) =>
      (match ReadMessage(rest, end, isMime)
       case Done((headers, body, after)) => Done((Response(status, headers, body), after))
       case Fails(e) => Fails(e)
       case Panics => Panics
       case Hangs => Hangs)
    case Fails(e) => Fails(e)
    case Panics => Panics
    case Hangs => Hangs
  }

  datatype StartLine = StartLine(verb: HttpMethod, uri: Text, version: Text)

  function ReadVerb(input: Text, end: End): Outcome<(HttpMethod, Text)> {
    match TryUntil(input, SP, end)
    case None => Fails(FromIo(end.kind))
    case Some(verb) =>
      if verb == [] then Fails(ConnectionClosed)
      else if |verb| < 2 then Fails(InvalidRequest)
      else
        match MethodFromText(Lossy(verb[..|verb| - 1]))
        case None => Fails(InvalidRequest)
        case Some(v) => Done((v, AfterUntil(input, SP)))
  }

  function WithoutDelimiters(verb: HttpMethod, uri: Text, version: Text): StartLine
    requires |uri| >= 1 && |version| >= 2
  {
    StartLine(verb, Lossy(uri[..|uri| - 1]), Lossy(version[..|version| - 2]))
  }

  function ReadVersion(verb: HttpMethod, uri: Text, input: Text, end: End): Outcome<(StartLine, Text)>
    requires |uri| >= 2
  {
    match TryUntil(input, LF, end)
    case None => Fails(FromIo(end.kind))
    case Some(version) =>
      if |version| < 3 || version[|version| - 2] != CR then Fails(InvalidRequest)
      else Done((WithoutDelimiters(verb, uri, version), AfterUntil(input, LF)))
  }

  function ReadTarget(verb: HttpMethod, input: Text, end: End): Outcome<(StartLine, Text)> {
    match TryUntil(input, SP, end)
    case None => Fails(Unknown)
    case Some(uri) =>
      if |uri| < 2 then Fails(InvalidRequest) else ReadVersion(verb, uri, AfterUntil(input, SP), end)
  }

  /// `HttpRequestLine::read_from`
  function ReadRequestLine(input: Text, end: End): Outcome<(StartLine, Text)> {
    match ReadVerb(input, end)
    case Done((verb, rest)) => ReadTarget(verb, rest, end)
    case Fails(e) => Fails(e)
    case Panics => Panics
    case Hangs => Hangs
  }

  /// `Request::read_from`, with the body read to its end.
  function ReadRequest(input: Text, end: End, isMime: Text -> bool): Outcome<(Request, Text)> {
    RequestAfter(ReadRequestLine(input, end), end, isMime)
  }

  function RequestAfter(start: Outcome<(StartLine, Text)>, end: End, isMime: Text -> bool): Outcome<(Request, Text)> {
    match start
    case Done((line, rest)) => RequestOf(line, ReadMessage(rest, end, isMime))
    case Fails(e) => Fails(e)
    case Panics => Panics
    case Hangs => Hangs
  }

  function RequestOf(line: StartLine, message: Outcome<(Fields, Option<Content>, Text)>): Outcome<(Request, Text)> {
    match message
    case Done((headers, body, after)) => Done((Request(line.verb, line.uri, line.version, headers, body), after))
    case Fails(e) => Fails(e)
    case Panics => Panics
    case Hangs => Hangs
  }

  // ---------------------------------------------------------------- reading up to the body

  /// The input behind the head of a request.
  function AfterHead(input: Text, end: End): Text {
    BehindHead(ReadRequestLine(input, end), end)
  }

  function BehindHead(start: Outcome<(StartLine, Text)>, end: End): Text {
    if start.Done? then BehindFields(ReadFields(start.value.1, end, map[])) else []
  }

  function BehindFields(fields: Outcome<(Fields, Text)>): Text {
    if fields.Done? then fields.value.1 else []
  }

  /// The headers and the body they announce, none of which is read.
  function Unread(headers: Fields, rest: Text, isMime: Text -> bool): Outcome<(Fields, Option<Content>, Text)> {
    match FrameOf(headers, isMime)
    case Done(None) => Done((headers, None, rest))
    case Done(Some(frame)) => Done((headers, Some(Content(frame.contentType, frame.length, [])), rest))
    case Fails(e) => Fails(e)
    case Panics => Panics
    case Hangs => Hangs
  }

  function ReadUnreadMessage(input: Text, end: End, isMime: Text -> bool): Outcome<(Fields, Option<Content>, Text)> {
    match ReadFields(input, end, map[])
    case Done((headers, rest)) => Unread(headers, rest, isMime)
    case Fails(e) => Fails(e)
    case Panics => Panics
    case Hangs => Hangs
  }

  /// `Request::read_from`, which leaves the body to be read.
  function ReadUnread(input: Text, end: End, isMime: Text -> bool): Outcome<(Request, Text)> {
    UnreadAfter(ReadRequestLine(input, end), end, isMime)
  }

  function UnreadAfter(start: Outcome<(StartLine, Text)>, end: End, isMime: Text -> bool): Outcome<(Request, Text)> {
    match start
    case Done((line, rest)) => RequestOf(line, ReadUnreadMessage(rest, end, isMime))
    case Fails(e) => Fails(e)
    case Panics => Panics
    case Hangs => Hangs
  }

  // ---------------------------------------------------------------- which messages come back

  /// As many bytes as announced; or fewer, and then nothing, not even a fault.
  predicate FillsFrame(content: Content, tail: Text, end: End) {
    content.length == |content.bytes| || (content.length > |content.bytes| && tail == [] && end.Eof?)
  }

  /// The headers announce the body there is.  A body-less message must not announce a length itself.
  predicate FramedRight(headers: Fields, body: Option<Content>, tail: Text, end: End, isMime: Text -> bool) {
    && PlainEncoding(headers)
    && match body
       case None => Had(headers, ContentLength()) == []
       case Some(content) =>
         && content.length > 0 && AnnouncesLength(headers, content.length)
         && AnnouncesType(headers, content.contentType, isMime)
         && FillsFrame(content, tail, end)
  }

  ghost predicate GoodMessage(headers: Fields, body: Option<Content>, tail: Text, end: End, isMime: Text -> bool) {
    GoodFields(Announced(headers, body)) && FramedRight(headers, body, tail, end, isMime)
  }

  lemma HeaderNamesDiffer()
    ensures ContentLength() != TransferEncoding() && ContentLength() != ContentType()
    ensures ContentType() != TransferEncoding()
  {
    assert |ContentLength()| == 14 && |TransferEncoding()| == 17 && |ContentType()| == 12;
  }

  lemma NoBodyRead(headers: Fields, tail: Text, end: End, isMime: Text -> bool)
    ensures var m := Announced(headers, None);
            FramedRight(headers, None, tail, end, isMime) <==>
              WithBody(m, tail, end, isMime) == Done((m, None, tail))
  {
    var m := Announced(headers, None);
    HeaderNamesDiffer();
    DecimalRoundTrip(0, WORD);
    FrameExactly(m, isMime);
    assert m[ContentLength()] == Had(headers, ContentLength()) + [ZERO];
    assert PlainEncoding(m) <==> PlainEncoding(headers);
    assert AnnouncesLength(m, 0) <==> Had(headers, ContentLength()) == [];
  }

  lemma CutAt(bytes: Text, tail: Text, n: nat)
    requires n <= |bytes + tail|
    ensures (bytes + tail)[..n] == bytes && (bytes + tail)[n..] == tail <==> n == |bytes|
  {
    Halves(bytes, tail);
  }

  lemma BodyRead(m: Fields, content: Content, tail: Text, end: End, isMime: Text -> bool)
    ensures FramedRight(m, Some(content), tail, end, isMime) <==>
              WithBody(m, content.bytes + tail, end, isMime) == Done((m, Some(content), tail))
  {
    FrameExactly(m, isMime);
    var rest := content.bytes + tail;
    CutAt(content.bytes, tail, Min(content.length, |rest|));
  }

  /// The reader finds the body that was written, and what follows it, exactly when the headers frame it right.
  lemma FrameRead(headers: Fields, body: Option<Content>, tail: Text, end: End, isMime: Text -> bool)
    ensures var m := Announced(headers, body);
            FramedRight(headers, body, tail, end, isMime) <==>
              WithBody(m, BodyBytes(body) + tail, end, isMime) == Done((m, body, tail))
  {
    match body
    case None =>
      assert [] + tail == tail;
      NoBodyRead(headers, tail, end, isMime);
    case Some(content) => BodyRead(headers, content, tail, end, isMime);
  }

  lemma HeadersOfMessage(input: Text, end: End, isMime: Text -> bool)
    requires ReadMessage(input, end, isMime).Done?
    ensures ReadFields(input, end, map[]).Done?
    ensures ReadFields(input, end, map[]).value.0 == ReadMessage(input, end, isMime).value.0
  {}

  /// What follows the start line comes back exactly for good messages, for every header order, every tail and every way
  /// the stream ends.
  lemma MessageRoundTripsExactly(
    headers: Fields, order: seq<Text>, body: Option<Content>, tail: Text, end: End, isMime: Text -> bool)
    requires IsOrder(Announced(headers, body), order)
    ensures
      var r := ReadMessage(MessageText(headers, order, body) + tail, end, isMime);
      && (r.Done? && r.value.0 == Announced(headers, body) && r.value.1 == body && r.value.2 == tail
          <==> GoodMessage(headers, body, tail, end, isMime))
  {
    var m := Announced(headers, body);
    var rest := BodyBytes(body) + tail;
    var input := AllLines(m, order) + CRLF + rest;
    Associative(AllLines(m, order) + CRLF, BodyBytes(body), tail);
    HeadersRoundTripExactly(m, order, rest, end);
    if GoodFields(m) {
      assert ReadMessage(input, end, isMime) == WithBody(m, rest, end, isMime);
      FrameRead(headers, body, tail, end, isMime);
    } else if ReadMessage(input, end, isMime).Done? {
      HeadersOfMessage(input, end, isMime);
    }
  }

  /// A response is read in two parts, a status line and the rest.
  lemma ResponseInTwoParts(response: Response, rest: Text, tail: Text, end: End, isMime: Text -> bool)
    ensures
      var r := ReadMessage(rest, end, isMime);
      && (ResponseAfter(StatusLineOutcome(response.status, rest), end, isMime) == Done((response, tail)) <==>
            && GoodStatus(response.status)
            && r.Done? && r.value.0 == response.headers && r.value.1 == response.body && r.value.2 == tail)
  {}

  /// A response comes back, with the added length if it has no body, and exactly the bytes written are consumed,
  /// exactly when its status has a number of three digits read as itself and the rest is a good message.
  lemma ResponseRoundTripsExactly(
    status: StatusCode, headers: Fields, body: Option<Content>, order: seq<Text>, tail: Text, end: End,
    isMime: Text -> bool)
    requires IsOrder(Announced(headers, body), order)
    ensures ReadResponse(ResponseText(Response(status, headers, body), order) + tail, end, isMime)
         == Done((Response(status, Announced(headers, body), body), tail))
       <==> GoodStatus(status) && GoodMessage(headers, body, tail, end, isMime)
  {
    var text := MessageText(headers, order, body);
    Associative(StatusLine(status), text, tail);
    StatusLineReadsBack(status, text + tail, end);
    MessageRoundTripsExactly(headers, order, body, tail, end, isMime);
    ResponseInTwoParts(Response(status, Announced(headers, body), body), text + tail, tail, end, isMime);
  }

  // ---------------------------------------------------------------- requests

  lemma NameIsRead(verb: HttpMethod)
    ensures var name := Ascii(verb.Name()); |name| >= 1 && SP !in name && MethodFromText(name) == Some(verb)
  {
    // The names differ in length or in the first letter.
    assert Ascii("GET")[0] == 71 && Ascii("PUT")[0] == 80;
    assert Ascii("HEAD")[0] == 72 && Ascii("POST")[0] == 80;
    assert Ascii("TRACE")[0] == 84 && Ascii("PATCH")[0] == 80;
    assert Ascii("CONNECT")[0] == 67 && Ascii("OPTIONS")[0] == 79;
  }

  /// A string, as opposed to any bytes
  predicate IsString(t: Text) {
    Lossy(t) == t
  }

  predicate GoodUri(uri: Text) {
    uri != [] && SP !in uri && IsString(uri)
  }

  predicate GoodVersion(version: Text) {
    version != [] && LF !in version && IsString(version)
  }

  lemma RequestLineParts(verb: HttpMethod, uri: Text, version: Text, tail: Text)
    ensures RequestLine(verb, uri, version) + tail
         == Ascii(verb.Name()) + [SP] + (uri + [SP] + (version + CRLF + tail))
  {}

  /// Cutting a joined text at its first delimiter gives back the front exactly if that has no delimiter.
  lemma {:induction false} UntilExact(front: Text, d: byte, rest: Text)
    ensures d !in front ==> Until(front + [d] + rest, d) == front + [d]
    ensures d in front ==> |Until(front + [d] + rest, d)| <= |front|
  {
    if front == [] {
    } else {
      UntilExact(front[1..], d, rest);
      assert (front + [d] + rest)[1..] == front[1..] + [d] + rest;
      assert front == [front[0]] + front[1..];
    }
  }

  lemma VersionExact(version: Text, tail: Text)
    ensures var chunk := Until(version + CRLF + tail, LF);
            |chunk| >= 3 && chunk[|chunk| - 2] == CR && Lossy(chunk[..|chunk| - 2]) == version <==> GoodVersion(version)
    ensures LF in Until(version + CRLF + tail, LF)
    ensures GoodVersion(version) ==> AfterUntil(version + CRLF + tail, LF) == tail
  {
    var front := version + [CR];
    var input := version + CRLF + tail;
    assert input == front + [LF] + tail;
    if LF !in version {
      UntilFound(front, LF, tail);
      assert (front + [LF])[..|version|] == version;
    } else {
      var chunk := Until(input, LF);
      CutEarly(front, LF, tail);
      if |chunk| >= 3 {
        LossyDiffers(chunk[..|chunk| - 2], LF, version);
      }
    }
  }

  lemma CutEarly(front: Text, d: byte, rest: Text)
    ensures var chunk := Until(front + [d] + rest, d); d in chunk && d !in chunk[..|chunk| - 1]
  {
    assert (front + [d] + rest)[|front|] == d;
    UntilSplits(front + [d] + rest, d);
  }

  lemma CleanUri(uri: Text, rest: Text)
    requires SP !in uri
    ensures Until(uri + [SP] + rest, SP) == uri + [SP] && AfterUntil(uri + [SP] + rest, SP) == rest
    ensures (uri + [SP])[..|uri|] == uri
  {
    UntilFound(uri, SP, rest);
  }

  lemma UriExact(uri: Text, rest: Text)
    ensures var chunk := Until(uri + [SP] + rest, SP);
            SP in chunk && (|chunk| >= 2 && Lossy(chunk[..|chunk| - 1]) == uri <==> GoodUri(uri))
    ensures GoodUri(uri) ==> AfterUntil(uri + [SP] + rest, SP) == rest
  {
    CutEarly(uri, SP, rest);
    if SP !in uri {
      CleanUri(uri, rest);
    } else {
      var chunk := Until(uri + [SP] + rest, SP);
      LossyDiffers(chunk[..|chunk| - 1], SP, uri);
    }
  }

  lemma MethodTextExact(t: Text, verb: HttpMethod)
    ensures MethodFromText(t) == Some(verb) <==> t == Ascii(verb.Name())
  {
    NameIsRead(verb);
  }

  lemma NameIsAscii(verb: HttpMethod)
    ensures All(IsAscii, Ascii(verb.Name()))
  {}

  /// What is not a method's name does not become one by the conversion.
  lemma LossyMethodExact(t: Text, verb: HttpMethod)
    ensures MethodFromText(Lossy(t)) == Some(verb) <==> t == Ascii(verb.Name())
  {
    MethodTextExact(Lossy(t), verb);
    NameIsAscii(verb);
    LossyIsAscii(t, Ascii(verb.Name()));
  }

  lemma ReadVerbFound(input: Text, end: End, text: Text, verb: HttpMethod, rest: Text)
    requires TryUntil(input, SP, end) == Some(text + [SP]) && AfterUntil(input, SP) == rest
    requires text != [] && MethodFromText(Lossy(text)) == Some(verb)
    ensures ReadVerb(input, end) == Done((verb, rest))
  {
    assert (text + [SP])[..|text|] == text;
  }

  lemma WrittenVerb(verb: HttpMethod, rest: Text, end: End)
    ensures ReadVerb(Ascii(verb.Name()) + [SP] + rest, end) == Done((verb, rest))
  {
    var name := Ascii(verb.Name());
    NameIsRead(verb);
    UntilFound(name, SP, rest);
    LossyMethodExact(name, verb);
    ReadVerbFound(name + [SP] + rest, end, name, verb, rest);
  }

  lemma WrittenVersion(verb: HttpMethod, uri: Text, version: Text, tail: Text, end: End)
    requires GoodUri(uri)
    ensures var r := ReadVersion(verb, uri + [SP], version + CRLF + tail, end);
            && (r.Done? && r.value.0 == StartLine(verb, uri, version) <==> GoodVersion(version))
            && (GoodVersion(version) ==> r.Done? && r.value.1 == tail)
  {
    VersionExact(version, tail);
    assert (uri + [SP])[..|uri|] == uri;
  }

  lemma WrittenTarget(verb: HttpMethod, uri: Text, version: Text, tail: Text, end: End)
    ensures var r := ReadTarget(verb, uri + [SP] + (version + CRLF + tail), end);
            && (r.Done? && r.value.0 == StartLine(verb, uri, version) <==> GoodUri(uri) && GoodVersion(version))
            && (GoodUri(uri) && GoodVersion(version) ==> r.value.1 == tail)
  {
    var input1 := version + CRLF + tail;
    UriExact(uri, input1);
    if GoodUri(uri) {
      UntilFound(uri, SP, input1);
      WrittenVersion(verb, uri, version, tail, end);
    }
  }

  /// A request line comes back, and exactly it is consumed, exactly when its URI is not empty and has no space and its
  /// version is not empty and has no newline.
  lemma RequestLineRoundTripsExactly(verb: HttpMethod, uri: Text, version: Text, tail: Text, end: End)
    ensures var r := ReadRequestLine(RequestLine(verb, uri, version) + tail, end);
            && (r.Done? && r.value.0 == StartLine(verb, uri, version) <==> GoodUri(uri) && GoodVersion(version))
            && (r.Done? && r.value.0 == StartLine(verb, uri, version) ==> r.value.1 == tail)
  {
    RequestLineParts(verb, uri, version, tail);
    WrittenVerb(verb, uri + [SP] + (version + CRLF + tail), end);
    WrittenTarget(verb, uri, version, tail, end);
  }

  // ---------------------------------------------------------------- which request lines are accepted

  predicate StartsWithVerb(input: Text, verb: HttpMethod, after: Text) {
    input == Ascii(verb.Name()) + [SP] + after
  }

  lemma ReadVerbExactly(input: Text, end: End, verb: HttpMethod, rest: Text)
    requires rest != []
    ensures ReadVerb(input, end) == Done((verb, rest)) <==> StartsWithVerb(input, verb, rest)
  {
    var chunk := Until(input, SP);
    UntilSplits(input, SP);
    if |chunk| >= 2 {
      LossyMethodExact(chunk[..|chunk| - 1], verb);
    }
    if StartsWithVerb(input, verb, rest) {
      WrittenVerb(verb, rest, end);
    }
  }

  /// A version, a CR and one more byte: a newline, or the last of the input.
  predicate IsVersionEnd(input: Text, end: End, v: Text, c: byte, rest: Text) {
    v != [] && LF !in v && input == v + [CR, c] + rest && (c == LF || (rest == [] && end.Eof?))
  }

  lemma VersionUntil(input: Text, end: End, v: Text, c: byte, rest: Text)
    requires IsVersionEnd(input, end, v, c, rest)
    ensures TryUntil(input, LF, end) == Some(v + [CR, c]) && AfterUntil(input, LF) == rest
  {
    if c == LF {
      assert input == (v + [CR]) + [LF] + rest;
      assert v + [CR, c] == (v + [CR]) + [LF];
      UntilFound(v + [CR], LF, rest);
    } else {
      assert input == v + [CR, c];
      UntilSplits(input, LF);
    }
  }

  lemma LastTwo(t: Text)
    requires |t| >= 2
    ensures t == t[..|t| - 2] + [t[|t| - 2], t[|t| - 1]]
  {}

  lemma AcceptedVersion(verb: HttpMethod, uri: Text, input: Text, end: End) returns (v: Text, c: byte)
    requires |uri| >= 2 && ReadVersion(verb, uri, input, end).Done?
    ensures IsVersionEnd(input, end, v, c, ReadVersion(verb, uri, input, end).value.1)
    ensures ReadVersion(verb, uri, input, end).value.0 == StartLine(verb, Lossy(uri[..|uri| - 1]), Lossy(v))
  {
    UntilSplits(input, LF);
    var version := Until(input, LF);
    v, c := version[..|version| - 2], version[|version| - 1];
    LastTwo(version);
    assert input == version + AfterUntil(input, LF);
  }

  /// A URI, a space, a version and its end; what is kept of them is a string.
  ghost predicate IsTarget(input: Text, end: End, line: StartLine, u: Text, v: Text, rest: Text) {
    && u != [] && SP !in u && line.uri == Lossy(u) && line.version == Lossy(v)
    && exists after, c :: input == u + [SP] + after && IsVersionEnd(after, end, v, c, rest)
  }

  lemma TargetIsAccepted(input: Text, end: End, line: StartLine, u: Text, v: Text, rest: Text)
    requires IsTarget(input, end, line, u, v, rest)
    ensures ReadTarget(line.verb, input, end) == Done((line, rest))
  {
    var after, c :| input == u + [SP] + after && IsVersionEnd(after, end, v, c, rest);
    UntilFound(u, SP, after);
    VersionUntil(after, end, v, c, rest);
    assert (u + [SP])[..|u|] == u && (v + [CR, c])[..|v|] == v;
  }

  lemma AcceptedIsTarget(input: Text, end: End, line: StartLine, rest: Text) returns (u: Text, v: Text)
    requires ReadTarget(line.verb, input, end) == Done((line, rest))
    ensures IsTarget(input, end, line, u, v, rest)
  {
    UntilSplits(input, SP);
    var uri := Until(input, SP);
    var after := AfterUntil(input, SP);
    var c;
    v, c := AcceptedVersion(line.verb, uri, after, end);
    u := uri[..|uri| - 1];
    assert after != [];
    assert input == u + [SP] + after;
  }

  ghost predicate IsRequestLine(input: Text, end: End, line: StartLine, u: Text, v: Text, rest: Text) {
    exists after :: StartsWithVerb(input, line.verb, after) && IsTarget(after, end, line, u, v, rest)
  }

  lemma AcceptedIsRequestLine(input: Text, end: End, line: StartLine, rest: Text) returns (u: Text, v: Text)
    requires ReadRequestLine(input, end) == Done((line, rest))
    ensures IsRequestLine(input, end, line, u, v, rest)
  {
    var after := ReadVerb(input, end).value.1;
    u, v := AcceptedIsTarget(after, end, line, rest);
    ReadVerbExactly(input, end, line.verb, after);
    assert StartsWithVerb(input, line.verb, after);
  }

  lemma RequestLineIsAccepted(input: Text, end: End, line: StartLine, u: Text, v: Text, rest: Text)
    requires IsRequestLine(input, end, line, u, v, rest)
    ensures ReadRequestLine(input, end) == Done((line, rest))
  {
    var after :| StartsWithVerb(input, line.verb, after) && IsTarget(after, end, line, u, v, rest);
    TargetIsAccepted(after, end, line, u, v, rest);
    ReadVerbExactly(input, end, line.verb, after);
  }

  /// A request line is accepted exactly when it is a method, bytes without a space and bytes without a newline, as they
  /// are written; only where the input ends without a fault may another byte stand for the newline.
  lemma RequestLineAcceptsExactly(input: Text, end: End, line: StartLine, rest: Text)
    ensures ReadRequestLine(input, end) == Done((line, rest)) <==>
              exists u, v :: IsRequestLine(input, end, line, u, v, rest)
  {
    if ReadRequestLine(input, end) == Done((line, rest)) {
      var u, v := AcceptedIsRequestLine(input, end, line, rest);
    }
    if u, v :| IsRequestLine(input, end, line, u, v, rest) {
      RequestLineIsAccepted(input, end, line, u, v, rest);
    }
  }

  // ---------------------------------------------------------------- whole requests

  lemma RequestInTwoParts(
    got: Outcome<(StartLine, Text)>, request: Request, tail: Text, end: End, isMime: Text -> bool)
    ensures
      RequestAfter(got, end, isMime) == Done((request, tail)) <==>
        && got.Done? && got.value.0 == StartLine(request.verb, request.uri, request.version)
        && var r := ReadMessage(got.value.1, end, isMime);
           r.Done? && r.value.0 == request.headers && r.value.1 == request.body && r.value.2 == tail
  {}

  /// The same for requests.
  lemma RequestRoundTripsExactly(
    line: StartLine, headers: Fields, body: Option<Content>, order: seq<Text>, tail: Text, end: End,
    isMime: Text -> bool)
    requires IsOrder(Announced(headers, body), order)
    ensures
      var sent := Request(line.verb, line.uri, line.version, headers, body);
      var back := Request(line.verb, line.uri, line.version, Announced(headers, body), body);
      (ReadRequest(RequestText(sent, order) + tail, end, isMime) == Done((back, tail))
       <==> GoodUri(line.uri) && GoodVersion(line.version) && GoodMessage(headers, body, tail, end, isMime))
  {
    var text := MessageText(headers, order, body);
    var start := RequestLine(line.verb, line.uri, line.version);
    var back := Request(line.verb, line.uri, line.version, Announced(headers, body), body);
    Associative(start, text, tail);
    RequestLineRoundTripsExactly(line.verb, line.uri, line.version, text + tail, end);
    MessageRoundTripsExactly(headers, order, body, tail, end, isMime);
    RequestInTwoParts(ReadRequestLine(start + (text + tail), end), back, tail, end, isMime);
  }
}
