/** Reading and writing whole messages in the library's own form, one stream operation at a time. */
module HttpConnection {
  import opened Bytes
  import opened HttpText
  import opened Utf8
  import opened HttpMethods
  import opened HttpReader
  import opened HttpHeaders
  import opened HttpStatus
  import opened HttpBody
  import opened HttpMessages

  lemma Pieces(before: Text, start: Text, lines: Text, bytes: Text)
    ensures before + start + lines + CRLF + bytes == before + (start + (lines + CRLF + bytes))
    ensures bytes == [] ==> before + start + lines + CRLF == before + (start + (lines + CRLF + bytes))
  {}

  class ResponseMessage {
    var status: StatusCode
    const headers: Headers
    var body: Option<Content>

    constructor (status: StatusCode, headers: Headers, body: Option<Content>)
      ensures this.status == status && this.headers == headers && this.body == body
    {
      this.status, this.headers, this.body := status, headers, body;
    }

    /// `Response::write`: a response without a body is changed by being written.
    method Write(to: Writer) returns (ghost order: seq<Text>)
      modifies headers, to
      ensures headers.headers == Announced(old(headers.headers), body) && IsOrder(headers.headers, order)
      ensures to.out == old(to.out) + ResponseText(Response(status, old(headers.headers), body), order)
    {
      to.WriteAll(StatusLine(status));
      if body.None? {
        headers.Add(Header(ContentLength(), ZERO));
      }
      order := headers.Write(to);
      Pieces(old(to.out), StatusLine(status), AllLines(headers.headers, order), BodyBytes(body));
      if body.Some? {
        to.WriteAll(body.value.bytes);
      }
    }
  }

  class RequestMessage {
    const line: StartLine
    const headers: Headers
    const body: Option<Content>

    constructor (line: StartLine, headers: Headers, body: Option<Content>)
      ensures this.line == line && this.headers == headers && this.body == body
    {
      this.line, this.headers, this.body := line, headers, body;
    }

    /// `Request::write`
    method Write(to: Writer) returns (ghost order: seq<Text>)
      modifies headers, to
      ensures headers.headers == Announced(old(headers.headers), body) && IsOrder(headers.headers, order)
      ensures to.out == old(to.out)
           + RequestText(Request(line.verb, line.uri, line.version, old(headers.headers), body), order)
    {
      to.WriteAll(RequestLine(line.verb, line.uri, line.version));
      if body.None? {
        headers.Add(Header(ContentLength(), ZERO));
      }
      order := headers.Write(to);
      Pieces(old(to.out), RequestLine(line.verb, line.uri, line.version), AllLines(headers.headers, order),
             BodyBytes(body));
      if body.Some? {
        to.WriteAll(body.value.bytes);
      }
    }
  }

  method ReadVerbFrom(from: Reader) returns (r: Outcome<HttpMethod>)
    requires from.AtLines()
    modifies from`pos, from`filled, from`head
    ensures from.Valid()
    ensures match ReadVerb(old(from.Rest()), from.end)
            case Done((verb, rest)) => r == Done(verb) && from.Rest() == rest
            case Fails(e) => r == Fails(e)
            case _ => false
  {
    var verb := from.ReadUntil(SP);
    if verb.None? {
      return Fails(FromIo(from.end.kind));
    }
    if verb.value == [] {
      return Fails(ConnectionClosed);
    }
    if |verb.value| < 2 {
      return Fails(InvalidRequest);
    }
    match MethodFromText(Lossy(verb.value[..|verb.value| - 1])) {
      case None => r := Fails(InvalidRequest);
      case Some(known) => r := Done(known);
    }
  }

  method ReadVersionFrom(from: Reader, verb: HttpMethod, uri: Text) returns (r: Outcome<StartLine>)
    requires from.AtLines() && |uri| >= 2
    modifies from`pos, from`filled, from`head
    ensures from.Valid()
    ensures match ReadVersion(verb, uri, old(from.Rest()), from.end)
            case Done((line, rest)) => r == Done(line) && from.Rest() == rest
            case Fails(e) => r == Fails(e)
            case _ => false
  {
    var version := from.ReadUntil(LF);
    if version.None? {
      return Fails(FromIo(from.end.kind));
    }
    if |version.value| < 3 || version.value[|version.value| - 2] != CR {
      return Fails(InvalidRequest);
    }
    r := Done(WithoutDelimiters(verb, uri, version.value));
  }

  method ReadTargetFrom(from: Reader, verb: HttpMethod) returns (r: Outcome<StartLine>)
    requires from.AtLines()
    modifies from`pos, from`filled, from`head
    ensures from.Valid()
    ensures match ReadTarget(verb, old(from.Rest()), from.end)
            case Done((line, rest)) => r == Done(line) && from.Rest() == rest
            case Fails(e) => r == Fails(e)
            case _ => false
  {
    var uri := from.ReadUntil(SP);
    if uri.None? {
      return Fails(Unknown);
    }
    if |uri.value| < 2 {
      return Fails(InvalidRequest);
    }
    r := ReadVersionFrom(from, verb, uri.value);
  }

  /// `HttpRequestLine::read_from`, one `read_until` at a time.
  method ReadRequestLineFrom(from: Reader) returns (r: Outcome<StartLine>)
    requires from.AtLines()
    modifies from`pos, from`filled, from`head
    ensures from.Valid()
    ensures match ReadRequestLine(old(from.Rest()), from.end)
            case Done((line, rest)) => r == Done(line) && from.Rest() == rest
            case Fails(e) => r == Fails(e)
            case _ => false
  {
    var verb := ReadVerbFrom(from);
    match verb {
      case Done(v) => r := ReadTargetFrom(from, v);
      case Fails(e) => r := Fails(e);
    }
  }

  /// The reader stands before the bytes that `body` frames.
  ghost predicate Frames(from: Reader, body: Body?, headers: Fields, isMime: Text -> bool)
    reads from, body, if body == null then {} else {body.content, body.content.inner}
    requires from.Valid()
  {
    match FrameOf(headers, isMime)
    case Done(None) => body == null
    case Done(Some(frame)) =>
      && body != null && body.content.inner == from && body.Valid() && body.start == from.pos && body.bytesRead == 0
      && body.contentType == frame.contentType && body.contentLength == frame.length
    case _ => false
  }

  /// Headers and body frame, as both `read_from` read them.
  method ReadMessageFrom(from: Reader, isMime: Text -> bool)
    returns (r: Outcome<()>, headers: Headers, body: Body?)
    requires from.AtLines()
    modifies from`pos, from`filled, from`head
    ensures from.Valid() && fresh(headers) && (body != null ==> fresh(body) && fresh(body.content))
    ensures match ReadFields(old(from.Rest()), from.end, map[])
            case Done((fields, rest)) =>
              && headers.headers == fields && from.Rest() == rest
              && (match FrameOf(fields, isMime)
                  case Done(_) => r == Done(()) && Frames(from, body, fields, isMime)
                  case Fails(e) => r == Fails(e)
                  case _ => false)
            case Fails(e) => r == Fails(e)
            case Panics => r == Panics
            case Hangs => r == Hangs
  {
    headers := new Headers();
    body := null;
    r := headers.ReadFrom(from);
    if r.Done? {
      r, body := BodyFrom(from, headers, isMime);
    }
  }

  /// A handler reads of a body what it likes.  If it leaves the body in the request, the rest is read for it; if it
  /// takes the body away, nothing more is read.
  method Handle(from: Reader, body: Body?, ghost headers: Fields, isMime: Text -> bool, takes: bool)
    returns (r: Outcome<()>)
    requires from.AtLines() && Frames(from, body, headers, isMime)
    modifies from, body, if body == null then {} else {body.content}
    ensures from.Valid() && from.head == old(from.head)
    ensures !takes ==>
              match WithBody(headers, old(from.Rest()), from.end, isMime)
              case Done((_, content, after)) =>
                r == Done(()) && from.Rest() == after && (content.None? ==> from.rooms == [])
              case Fails(e) => r == Fails(e)
              case _ => false
    ensures takes ==>
              match Unread(headers, old(from.Rest()), isMime)
              case Done((_, content, _)) =>
                && r == Done(()) && from.pos <= old(from.pos) + AnnouncedLength(content)
                && (content.None? ==> from.rooms == [])
              case _ => false
  {
    r := Done(());
    if body != null {
      if takes {
        body.Handled();
        return;
      }
      ghost var rest, start := from.Rest(), from.pos;
      var ok := body.AfterAnyHandler();
      if !ok {
        return Fails(FromIo(from.end.kind));
      }
      assert from.pos == start + Min(body.contentLength, |rest|);
      assert from.Rest() == rest[Min(body.contentLength, |rest|)..];
    }
  }

  /// The length a message announces for its body.
  function AnnouncedLength(content: Option<Content>): nat {
    match content
    case None => 0
    case Some(c) => c.length
  }

  /// Reading and handling the part of a message behind its start line came to `r` with these headers, where `message`
  /// is to be read: the reader stands at the end of the message, or somewhere in its body if the handler took that.
  ghost predicate HandledSo(
    from: Reader, takes: bool, r: Outcome<()>, fields: Fields, message: Outcome<(Fields, Option<Content>, Text)>)
    reads from
    requires from.Valid()
  {
    match message
    case Done((headers, content, after)) =>
      && r == Done(()) && fields == headers && (content.None? ==> from.rooms == [])
      && if takes then from.pos <= from.head + AnnouncedLength(content) && after == from.input[from.head..]
         else from.Rest() == after
    case Fails(e) => r == Fails(e)
    case Panics => r == Panics
    case Hangs => r == Hangs
  }

  /// What follows a start line is read and handled.  Whatever a handler reads, short of taking the body away, the
  /// reader then stands exactly at the end of the message; if it takes the body away, it stands somewhere in it.
  method HandleMessage(from: Reader, isMime: Text -> bool, takes: bool) returns (r: Outcome<()>, headers: Headers)
    requires from.AtLines()
    modifies from
    ensures from.Valid() && fresh(headers)
    ensures var input := old(from.Rest());
            && (r.Done? ==> from.input[from.head..] == BehindFields(ReadFields(input, from.end, map[])))
            && HandledSo(from, takes, r, headers.headers,
                         if takes then ReadUnreadMessage(input, from.end, isMime)
                         else ReadMessage(input, from.end, isMime))
  {
    var body;
    r, headers, body := ReadMessageFrom(from, isMime);
    if r.Done? {
      r := Handle(from, body, headers.headers, isMime, takes);
    }
  }

  /// The same for a request and the part of it behind its head.
  ghost predicate HandledAs(
    from: Reader, takes: bool, r: Outcome<(StartLine, Fields)>, found: Outcome<(Request, Text)>, headRest: Text)
    reads from
    requires from.Valid()
  {
    match found
    case Done((request, after)) =>
      && r == Done((StartLine(request.verb, request.uri, request.version), request.headers))
      && from.input[from.head..] == headRest && (request.body.None? ==> from.rooms == [])
      && if takes then from.pos <= from.head + AnnouncedLength(request.body) && after == headRest
         else from.Rest() == after
    case Fails(e) => r == Fails(e)
    case Panics => r == Panics
    case Hangs => r == Hangs
  }

  function OfLine(line: StartLine, read: Outcome<()>, fields: Fields): Outcome<(StartLine, Fields)> {
    match read
    case Done(_) => Done((line, fields))
    case Fails(e) => Fails(e)
    case Panics => Panics
    case Hangs => Hangs
  }

  lemma RequestHandled(
    from: Reader, takes: bool, line: StartLine, r: Outcome<()>, fields: Fields,
    message: Outcome<(Fields, Option<Content>, Text)>, headRest: Text)
    requires from.Valid() && HandledSo(from, takes, r, fields, message)
    requires r.Done? ==> from.input[from.head..] == headRest
    ensures HandledAs(from, takes, OfLine(line, r, fields), RequestOf(line, message), headRest)
  {}

  method HandleBehind(
    from: Reader, isMime: Text -> bool, takes: bool, line: Outcome<StartLine>,
    ghost start: Outcome<(StartLine, Text)>)
    returns (r: Outcome<(StartLine, Fields)>)
    requires from.AtLines()
    requires match start
             case Done((known, rest)) => line == Done(known) && from.Rest() == rest
             case Fails(e) => line == Fails(e)
             case _ => false
    modifies from
    ensures from.Valid()
    ensures HandledAs(from, takes, r,
                      if takes then UnreadAfter(start, from.end, isMime) else RequestAfter(start, from.end, isMime),
                      BehindHead(start, from.end))
  {
    match line {
      case Fails(e) => return Fails(e);
      case Done(known) =>
        ghost var input := from.Rest();
        var read, headers := HandleMessage(from, isMime, takes);
        RequestHandled(from, takes, known, read, headers.headers,
                       if takes then ReadUnreadMessage(input, from.end, isMime)
                       else ReadMessage(input, from.end, isMime),
                       BehindFields(ReadFields(input, from.end, map[])));
        r := OfLine(known, read, headers.headers);
    }
  }

  /// One message of a connection: a request is read and handled.
  method OneRequest(from: Reader, isMime: Text -> bool, takes: bool) returns (r: Outcome<(StartLine, Fields)>)
    requires from.AtLines()
    modifies from
    ensures from.Valid()
    ensures var input := old(from.Rest());
            HandledAs(from, takes, r,
                      if takes then ReadUnread(input, from.end, isMime) else ReadRequest(input, from.end, isMime),
                      AfterHead(input, from.end))
  {
    ghost var start := ReadRequestLine(from.Rest(), from.end);
    var line := ReadRequestLineFrom(from);
    r := HandleBehind(from, isMime, takes, line, start);
  }

  /// The same for a response and its user.
  method OneResponse(from: Reader, isMime: Text -> bool) returns (r: Outcome<StatusCode>)
    requires from.AtLines()
    modifies from
    ensures from.Valid()
    ensures match ReadResponse(old(from.Rest()), from.end, isMime)
            case Done((response, after)) =>
              && r == Done(response.status) && from.Rest() == after
              && (response.body.None? ==> from.rooms == [])
            case Fails(e) => r == Fails(e)
            case Panics => r == Panics
            case Hangs => r == Hangs
  {
    r := ReadStatusLineFrom(from);
    if r.Done? {
      var read, headers := HandleMessage(from, isMime, false);
      match read {
        case Fails(e) => r := Fails(e);
        case Panics => r := Panics;
        case Hangs => r := Hangs;
        case Done(_) =>
      }
    }
  }
}
