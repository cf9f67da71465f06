/**
 The protocol as it is seen on the wire, told in literal bytes: the tables of methods and statuses, the classes of
 bytes, the texts of messages, and which error each way of going wrong ends in.
 */
module WireForm {
  import opened Bytes
  import opened HttpText
  import opened Utf8
  import opened Utf8Exact
  import opened HttpMethods
  import opened HttpReader
  import opened HttpHeaders
  import opened HeaderRoundTrip
  import opened HttpStatus
  import opened HttpBody
  import opened HttpMessages
  import opened HttpLibraryMessages

  // ---------------------------------------------------------------- classes of bytes

  /// Token characters are the digits, the letters and fifteen symbols; values are made of spaces, tabs, visible ASCII
  /// and all bytes outside ASCII, and begin behind spaces and tabs.
  lemma ClassesExactly(c: byte)
    ensures IsTokenChar(c) <==>
              || 48 <= c <= 57 || 65 <= c <= 90 || 97 <= c <= 122
              || c in Ascii("!#$%&'*+-.^_`|~")
    ensures IsFieldContent(c) <==> c == 9 || 32 <= c <= 126 || c >= 128
    ensures IsBlank(c) <==> c == 9 || c == 32
  {
    var symbols := Ascii("!#$%&'*+-.^_`|~");
    assert symbols == [33, 35, 36, 37, 38, 39, 42, 43, 45, 46, 94, 95, 96, 124, 126];
  }

  /// A line that is not read as a header and does not panic is invalid.
  lemma OtherLinesAreInvalid(line: Text)
    requires |line| >= 2
    ensures |line| == 2 ==> ParsedLine(line) == Done(None)
    ensures !ParsedLine(line).Done? && !ParsedLine(line).Panics? ==> ParsedLine(line) == Fails(InvalidRequest)
  {}

  // ---------------------------------------------------------------- numbers

  function Zeros(k: nat): Text {
    seq(k, _ => 48)
  }

  lemma DecimalByDigits(n: nat, d: nat)
    requires d < 10
    ensures Decimal(d) == [(48 + d) as byte]
    ensures n > 0 ==> Decimal(10 * n + d) == Decimal(n) + [(48 + d) as byte]
  {
    assert (10 * n + d) / 10 == n && (10 * n + d) % 10 == d;
  }

  /// Zeros in front, and the number as it is printed
  predicate Spelled(digits: Text, k: nat, n: nat) {
    digits == Zeros(k) + Decimal(n)
  }

  lemma {:induction false} SpelledIsNumber(k: nat, t: Text)
    requires forall i :: 0 <= i < |t| ==> IsDigit(t[i])
    ensures forall i :: 0 <= i < k + |t| ==> IsDigit((Zeros(k) + t)[i])
    ensures DigitsValue(Zeros(k) + t) == DigitsValue(t)
    decreases k + |t|
  {
    var all := Zeros(k) + t;
    assert forall i :: 0 <= i < k ==> all[i] == 48;
    if t != [] {
      SpelledIsNumber(k, t[..|t| - 1]);
      assert all[..|all| - 1] == Zeros(k) + t[..|t| - 1];
    } else if k > 0 {
      SpelledIsNumber(k - 1, []);
      assert all[..|all| - 1] == Zeros(k - 1) + [];
    }
  }

  lemma {:induction false} NumberIsSpelled(digits: Text) returns (k: nat)
    requires IsNumber(digits)
    ensures Spelled(digits, k, DigitsValue(digits))
  {
    var n := |digits| - 1;
    var front, d := digits[..n], digits[n] as nat - 48;
    assert digits == front + [(48 + d) as byte];
    if front == [] {
      k := 0;
      assert DigitsValue(front) == 0;
    } else {
      k := NumberIsSpelled(front);
      DecimalByDigits(DigitsValue(front), d);
      if DigitsValue(front) == 0 {
        assert front == Zeros(k + 1);
        k := k + 1;
      } else {
        Associative(Zeros(k), Decimal(DigitsValue(front)), [(48 + d) as byte]);
      }
    }
  }

  /// A text is parsed as a number exactly when it is that number in decimal, behind any zeros, behind a plus sign or
  /// none, and the number is below the limit.
  lemma ParsesExactly(t: Text, limit: nat, n: nat)
    ensures ParseUnsigned(t, limit) == Some(n) <==>
              n < limit && exists k: nat :: Spelled(t, k, n) || (t != [] && t[0] == 43 && Spelled(t[1..], k, n))
  {
    var digits := if t != [] && t[0] == 43 then t[1..] else t;
    if IsNumber(digits) {
      var k := NumberIsSpelled(digits);
    }
    forall k: nat, u: Text | Spelled(u, k, n)
      ensures IsNumber(u) && DigitsValue(u) == n
    {
      DecimalDigits(n);
      SpelledIsNumber(k, Decimal(n));
    }
  }

  // ---------------------------------------------------------------- blanks

  /// The numbers of the white-space characters
  predicate IsSpace(c: nat) {
    || 9 <= c <= 13 || c == 32 || c == 0x85 || c == 0xA0 || c == 0x1680 || 0x2000 <= c <= 0x200A
    || c == 0x2028 || c == 0x2029 || c == 0x202F || c == 0x205F || c == 0x3000
  }

  lemma LastIsBlank(t: Text, c: nat)
    requires IsScalar(c)
    ensures TrailingBlank(t + Encode(c)) == if IsSpace(c) then |Encode(c)| else 0
  {
    var all := t + Encode(c);
    var n := |all|;
    if |Encode(c)| == 1 {
      assert all[n - 1] as nat == c;
    } else if |Encode(c)| == 2 {
      assert all[n - 2] == Encode(c)[0] && all[n - 1] == Encode(c)[1];
    } else if |Encode(c)| == 3 {
      assert all[n - 3] == Encode(c)[0] && all[n - 2] == Encode(c)[1] && all[n - 1] == Encode(c)[2];
    } else {
      assert all[n - 3] == Encode(c)[1] && all[n - 2] == Encode(c)[2] && all[n - 1] == Encode(c)[3];
    }
  }

  /// Behind any bytes, a character is trimmed from the end exactly when it is white space.
  lemma TrimsExactly(t: Text, c: nat)
    requires IsScalar(c)
    ensures TrimEnd(t + Encode(c)) == if IsSpace(c) then TrimEnd(t) else t + Encode(c)
  {
    LastIsBlank(t, c);
    Halves(t, Encode(c));
  }

  // ---------------------------------------------------------------- tables

  lemma MethodNames()
    ensures GET.Name() == "GET" && HEAD.Name() == "HEAD" && POST.Name() == "POST" && PUT.Name() == "PUT"
    ensures DELETE.Name() == "DELETE" && CONNECT.Name() == "CONNECT" && OPTIONS.Name() == "OPTIONS"
    ensures TRACE.Name() == "TRACE" && PATCH.Name() == "PATCH"
  {}

  lemma SuccessNumbers()
    ensures Continue.Code() == 100 && SwitchingProtocols.Code() == 101 && OK.Code() == 200 && Created.Code() == 201
    ensures Accepted.Code() == 202 && NonAuthoritativeInformation.Code() == 203 && NoContent.Code() == 204
    ensures ResetContent.Code() == 205 && PartialContent.Code() == 206
  {}

  lemma RedirectionNumbers()
    ensures MultipleChoices.Code() == 300 && MovedPermanently.Code() == 301 && Found.Code() == 302
    ensures SeeOther.Code() == 303 && NotModified.Code() == 304 && UseProxy.Code() == 305
    ensures TemporaryRedirect.Code() == 307
  {}

  lemma ClientErrorNumbers()
    ensures BadRequest.Code() == 400 && Unauthorized.Code() == 401 && PaymentRequired.Code() == 402
    ensures Forbidden.Code() == 403 && NotFound.Code() == 404 && MethodNotAllowed.Code() == 405
    ensures NotAcceptable.Code() == 406 && ProxyAuthenticationRequired.Code() == 407 && RequestTimeOut.Code() == 408
  {}

  lemma LaterErrorNumbers()
    ensures Conflict.Code() == 409 && Gone.Code() == 410 && LengthRequired.Code() == 411
    ensures PreconditionFailed.Code() == 412 && RequestEntityTooLarge.Code() == 413
    ensures RequestURITooLarge.Code() == 414 && UnsupportedMediaType.Code() == 415
    ensures RequestedRangeNotSatisfiable.Code() == 416 && ExpectationFailed.Code() == 417
  {}

  lemma ServerErrorNumbers()
    ensures InternalServerError.Code() == 500 && NotImplemented.Code() == 501 && BadGateway.Code() == 502
    ensures ServiceUnavailable.Code() == 503 && GatewayTimeOut.Code() == 504 && HTTPVersionNotSupported.Code() == 505
  {}

  /// Every number is the number of the status made from it.
  lemma NumberOfStatus(n: nat)
    ensures StatusFrom(n).Code() == n
  {}

  // ---------------------------------------------------------------- texts

  lemma OkLine(line: Text)
    requires line == Ascii("HTTP/1.1 200 OK\r\n")
    ensures StatusLine(OK) == line
  {
    var code: Text := [50, 48, 48];
    assert Decimal(2) == [50] && Decimal(20) == [50] + [48] && Decimal(200) == [50, 48] + [48] == code;
    assert ReasonText(OK) == [79, 75];
    assert StatusLine(OK) == Ascii("HTTP/1.1") + [32] + (code + [32] + ([79, 75] + [13, 10]));
  }

  lemma NoLengthLine(line: Text)
    requires line == Ascii("Content-Length: 0\r\n")
    ensures FieldLine(ContentLength(), ZERO) == line
  {
    assert ZERO == [48];
    assert FieldLine(ContentLength(), ZERO) == Ascii("Content-Length") + [58, 32] + [48] + [13, 10];
  }

  /// A message without a body and without headers of its own is written with a length of zero.
  lemma EmptyMessageText(text: Text)
    requires text == Ascii("Content-Length: 0\r\n\r\n")
    ensures IsOrder(Announced(map[], None), [ContentLength()])
    ensures MessageText(map[], [ContentLength()], None) == text
  {
    var m: Fields := map[];
    assert [] + [ZERO] == [ZERO];
    assert Announced(m, None) == map[ContentLength() := [ZERO]];
    OneHeaderLines(Announced(m, None), ContentLength(), ZERO);
    NoLengthLine(Ascii("Content-Length: 0\r\n"));
    assert text == Ascii("Content-Length: 0\r\n") + CRLF + [];
  }

  /// For example, an empty answer.
  lemma EmptyResponseText(line: Text, rest: Text)
    requires line == Ascii("HTTP/1.1 200 OK\r\n") && rest == Ascii("Content-Length: 0\r\n\r\n")
    ensures IsOrder(Announced(map[], None), [ContentLength()])
    ensures ResponseText(Response(OK, map[], None), [ContentLength()]) == line + rest
  {
    OkLine(line);
    EmptyMessageText(rest);
  }

  lemma TwoHeaderLines(m: Fields, name: Text, value: Text, other: Text, another: Text)
    requires name != other && m == map[name := [value], other := [another]]
    ensures IsOrder(m, [name, other])
    ensures AllLines(m, [name, other]) == FieldLine(name, value) + FieldLine(other, another)
  {
    var none: seq<Text> := [];
    assert [name, other][1..] == [other] && [other][1..] == none && [value][1..] == none && [another][1..] == none;
    assert FieldLines(name, [value]) == FieldLine(name, value) + FieldLines(name, none);
    assert FieldLines(other, [another]) == FieldLine(other, another) + FieldLines(other, none);
    assert AllLines(m, [other]) == FieldLines(other, [another]) + AllLines(m, none);
    assert AllLines(m, [name, other]) == FieldLines(name, [value]) + AllLines(m, [other]);
  }

  lemma TwoHeaderBytes(a: Text, d: Text, b: Text, mime: Text, bytes: Text)
    ensures FieldLine(a, d) + FieldLine(b, mime) + CRLF + bytes
         == (a + [58, 32]) + d + ([13, 10] + b + [58, 32]) + mime + [13, 10, 13, 10] + bytes
  {
    assert CRLF + CRLF == [13, 10, 13, 10];
  }

  lemma NameTexts(names: Text, types: Text)
    requires names == Ascii("Content-Length: ") && types == Ascii("\r\nContent-Type: ")
    ensures names == ContentLength() + [58, 32] && types == [13, 10] + ContentType() + [58, 32]
  {}

  /// And an answer made from content.
  lemma ContentResponseText(mime: Text, length: nat, source: Text, line: Text, names: Text, types: Text)
    requires line == Ascii("HTTP/1.1 200 OK\r\n")
    requires names == Ascii("Content-Length: ") && types == Ascii("\r\nContent-Type: ")
    ensures var sent := FromContent(mime, length, source);
            var bytes := source[..if length < |source| then length else |source|];
            && IsOrder(sent.headers, [ContentLength(), ContentType()])
            && ResponseText(sent, [ContentLength(), ContentType()])
            == line + (names + Decimal(length) + types + mime + [13, 10, 13, 10] + bytes)
  {
    HeaderNamesDiffer();
    TwoHeaderLines(FromContent(mime, length, source).headers, ContentLength(), Decimal(length), ContentType(), mime);
    OkLine(line);
    NameTexts(names, types);
    TwoHeaderBytes(ContentLength(), Decimal(length), ContentType(), mime,
                   source[..if length < |source| then length else |source|]);
  }

  // ---------------------------------------------------------------- frames

  /// There is a body exactly when "Transfer-Encoding" is absent or "identity" alone, one "Content-Length" is a number
  /// above zero and below 2^64, and "Content-Type" is absent or begins with a media type.
  lemma FrameByName(m: Fields, isMime: Text -> bool, contentType: Option<Text>, n: nat)
    ensures FrameOf(m, isMime) == Done(Some(Frame(contentType, n))) <==>
              && (Ascii("Transfer-Encoding") !in m || m[Ascii("Transfer-Encoding")] == [Ascii("identity")])
              && Ascii("Content-Length") in m && |m[Ascii("Content-Length")]| == 1
              && ParseUnsigned(m[Ascii("Content-Length")][0], 18446744073709551616) == Some(n) && n > 0
              && match contentType
                 case None => Ascii("Content-Type") !in m
                 case Some(mime) =>
                   && Ascii("Content-Type") in m && m[Ascii("Content-Type")] != []
                   && m[Ascii("Content-Type")][0] == mime && isMime(mime)
  {
    FrameExactly(m, isMime);
  }

  // ---------------------------------------------------------------- errors

  /// The three faults of a stream, and what a reader makes of them.
  ghost predicate FaultOf(kind: IoKind, error: HttpError) {
    && (kind.TimedOut? ==> error == Timeout)
    && (kind.NotConnected? ==> error == ConnectionClosed)
    && (kind.OtherFault? ==> error == Unknown)
  }

  /// Without a space the fault is met, if there is one; otherwise the connection is closed where nothing arrives.
  lemma NoMethod(input: Text, end: End)
    requires SP !in input
    ensures match end
            case Broken(kind) => exists e :: ReadRequestLine(input, end) == Fails(e) && FaultOf(kind, e)
            case Eof => ReadRequestLine(input, end) == Fails(if input == [] then ConnectionClosed else InvalidRequest)
  {
    UntilSplits(input, SP);
    assert end.Broken? ==> FaultOf(end.kind, FromIo(end.kind));
    UntilSplits([], SP);
  }

  /// What stands before the first space must be the name of a method.
  lemma UnknownMethod(text: Text, rest: Text, end: End)
    requires SP !in text && forall verb: HttpMethod :: text != Ascii(verb.Name())
    ensures ReadRequestLine(text + [32] + rest, end) == Fails(InvalidRequest)
  {
    UntilFound(text, SP, rest);
    assert (text + [SP])[..|text|] == text;
    var known := MethodFromText(Lossy(text));
    if known.Some? {
      LossyMethodExact(text, known.value);
    }
  }

  /// A fault before the second space is never told as what it is.
  lemma NoUri(verb: HttpMethod, rest: Text, end: End)
    requires SP !in rest
    ensures ReadRequestLine(Ascii(verb.Name()) + [32] + rest, end)
         == Fails(if end.Broken? then Unknown else InvalidRequest)
  {
    WrittenVerb(verb, rest, end);
    UntilSplits(rest, SP);
    UntilSplits([], LF);
  }

  lemma EmptyUri(verb: HttpMethod, rest: Text, end: End)
    ensures ReadRequestLine(Ascii(verb.Name()) + [32] + ([32] + rest), end) == Fails(InvalidRequest)
  {
    WrittenVerb(verb, [32] + rest, end);
    UntilFound([], SP, rest);
    assert [] + [SP] + rest == [32] + rest;
  }

  /// A fault before the line's end is.
  lemma NoVersion(verb: HttpMethod, uri: Text, rest: Text, kind: IoKind)
    requires uri != [] && SP !in uri && LF !in rest
    ensures exists e ::
              && ReadRequestLine(Ascii(verb.Name()) + [32] + (uri + [32] + rest), Broken(kind)) == Fails(e)
              && FaultOf(kind, e)
  {
    WrittenVerb(verb, uri + [32] + rest, Broken(kind));
    UntilFound(uri, SP, rest);
    UntilSplits(rest, LF);
    assert FaultOf(kind, FromIo(kind));
  }

  /// The version must not be empty, and a CR must come before the newline.
  lemma BadVersion(verb: HttpMethod, uri: Text, version: Text, rest: Text, end: End)
    requires uri != [] && SP !in uri && LF !in version
    requires |version| < 2 || version[|version| - 1] != 13
    ensures ReadRequestLine(Ascii(verb.Name()) + [32] + (uri + [32] + (version + [10] + rest)), end)
         == Fails(InvalidRequest)
  {
    WrittenVerb(verb, uri + [32] + (version + [10] + rest), end);
    UntilFound(uri, SP, version + [LF] + rest);
    UntilFound(version, LF, rest);
  }

  /// A status line that is not read is a fault at its very beginning, a closed connection, or something unknown.
  lemma StatusLineFails(input: Text, end: End)
    requires !ReadStatusLine(input, end).Done?
    ensures ReadStatusLine(input, end) ==
            Fails(if SP !in input && end == Broken(TimedOut) then Timeout
                  else if input == [] && end.Eof? then ConnectionClosed
                  else Unknown)
  {
    UntilSplits(input, SP);
  }

  /// A body that is shorter than announced meets the fault of the stream.
  lemma BodyCutShort(m: Fields, rest: Text, kind: IoKind, isMime: Text -> bool, n: nat)
    requires FrameOf(m, isMime).Done? && FrameOf(m, isMime).value.Some? && FrameOf(m, isMime).value.value.length == n
    requires |rest| < n
    ensures exists e :: WithBody(m, rest, Broken(kind), isMime) == Fails(e) && FaultOf(kind, e)
  {
    assert FaultOf(kind, FromIo(kind));
  }

  /// And so do headers without their blank line.
  lemma HeadersCutShort(input: Text, kind: IoKind, m: Fields)
    requires LineLength(input) == 0
    ensures exists e :: ReadFields(input, Broken(kind), m) == Fails(e) && FaultOf(kind, e)
  {
    assert FaultOf(kind, FromIo(kind));
  }
}
