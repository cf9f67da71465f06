/** The status codes: numbers, reasons, and the status line. */
module HttpStatus {
  import opened Bytes
  import opened HttpText
  import opened HttpReader

  datatype StatusCode =
    | Continue
    | SwitchingProtocols
    | OK
    | Created
    | Accepted
    | NonAuthoritativeInformation
    | NoContent
    | ResetContent
    | PartialContent
    | MultipleChoices
    | MovedPermanently
    | Found
    | SeeOther
    | NotModified
    | UseProxy
    | TemporaryRedirect
    | BadRequest
    | Unauthorized
    | PaymentRequired
    | Forbidden
    | NotFound
    | MethodNotAllowed
    | NotAcceptable
    | ProxyAuthenticationRequired
    | RequestTimeOut
    | Conflict
    | Gone
    | LengthRequired
    | PreconditionFailed
    | RequestEntityTooLarge
    | RequestURITooLarge
    | UnsupportedMediaType
    | RequestedRangeNotSatisfiable
    | ExpectationFailed
    | InternalServerError
    | NotImplemented
    | BadGateway
    | ServiceUnavailable
    | GatewayTimeOut
    | HTTPVersionNotSupported
    | ExtensionCode(code: nat)
  {
    function Code(): nat {
      match this
      case Continue => 100
      case SwitchingProtocols => 101
      case OK => 200
      case Created => 201
      case Accepted => 202
      case NonAuthoritativeInformation => 203
      case NoContent => 204
      case ResetContent => 205
      case PartialContent => 206
      case MultipleChoices => 300
      case MovedPermanently => 301
      case Found => 302
      case SeeOther => 303
      case NotModified => 304
      case UseProxy => 305
      case TemporaryRedirect => 307
      case BadRequest => 400
      case Unauthorized => 401
      case PaymentRequired => 402
      case Forbidden => 403
      case NotFound => 404
      case MethodNotAllowed => 405
      case NotAcceptable => 406
      case ProxyAuthenticationRequired => 407
      case RequestTimeOut => 408
      case Conflict => 409
      case Gone => 410
      case LengthRequired => 411
      case PreconditionFailed => 412
      case RequestEntityTooLarge => 413
      case RequestURITooLarge => 414
      case UnsupportedMediaType => 415
      case RequestedRangeNotSatisfiable => 416
      case ExpectationFailed => 417
      case InternalServerError => 500
      case NotImplemented => 501
      case BadGateway => 502
      case ServiceUnavailable => 503
      case GatewayTimeOut => 504
      case HTTPVersionNotSupported => 505
      case ExtensionCode(code) => code
    }

    function Reason(): (r: string)
      ensures Printable(r)
    {
      if ExtensionCode? then "Extension code"
      else if Code() < 303 then EarlyReason(this)
      else if Code() < 404 then MiddleReason(this)
      else if Code() < 413 then LaterReason(this)
      else if Code() < 416 then RequestReason(this)
      else if Code() < 500 then LateReason(this)
      else ServerReason(this)
    }
  }

  function EarlyReason(status: StatusCode): (r: string)
    ensures Printable(r)
  {
    match status
    case Continue => "Continue"
    case SwitchingProtocols => "Switching Protocols"
    case OK => "OK"
    case Created => "Created"
    case Accepted => "Accepted"
    case NonAuthoritativeInformation => "Non-Authoritative Information"
    case NoContent => "No Content"
    case ResetContent => "Reset Content"
    case PartialContent => "Partial Content"
    case MultipleChoices => "Multiple Choices"
    case MovedPermanently => "Moved Permanently"
    case _ => "Found"
  }

  function MiddleReason(status: StatusCode): (r: string)
    ensures Printable(r)
  {
    match status
    case SeeOther => "See Other"
    case NotModified => "Not Modified"
    case UseProxy => "Use Proxy"
    case TemporaryRedirect => "Temporary Redirect"
    case BadRequest => "Bad Request"
    case Unauthorized => "Unauthorized"
    case PaymentRequired => "Payment Required"
    case _ => "Forbidden"
  }

  function LaterReason(status: StatusCode): (r: string)
    ensures Printable(r)
  {
    match status
    case NotFound => "Not Found"
    case MethodNotAllowed => "Method Not Allowed"
    case NotAcceptable => "Not Acceptable"
    case ProxyAuthenticationRequired => "Proxy Authentication Required"
    case RequestTimeOut => "Request Time-out"
    case Conflict => "Conflict"
    case Gone => "Gone"
    case LengthRequired => "Length Required"
    case _ => "Precondition Failed"
  }

  function RequestReason(status: StatusCode): (r: string)
    ensures Printable(r)
  {
    match status
    case RequestEntityTooLarge => "Request Entity Too Large"
    case RequestURITooLarge => "Request-URI Too Large"
    case _ => "Unsupported Media Type"
  }

  function LateReason(status: StatusCode): (r: string)
    ensures Printable(r)
  {
    match status
    case RequestedRangeNotSatisfiable => "Requested range not satisfiable"
    case _ => "Expectation Failed"
  }

  function ServerReason(status: StatusCode): (r: string)
    ensures Printable(r)
  {
    match status
    case InternalServerError => "Internal Server Error"
    case NotImplemented => "Not Implemented"
    case BadGateway => "Bad Gateway"
    case ServiceUnavailable => "Service Unavailable"
    case GatewayTimeOut => "Gateway Time-out"
    case _ => "HTTP Version not supported"
  }

  /// Neither empty nor with a line end.
  predicate Printable(s: string) {
    s != [] && forall c :: c in s ==> ' ' <= c <= '~'
  }

  function StatusFrom(code: nat): StatusCode {
    match code
    case 100 => Continue
    case 101 => SwitchingProtocols
    case 200 => OK
    case 201 => Created
    case 202 => Accepted
    case 203 => NonAuthoritativeInformation
    case 204 => NoContent
    case 205 => ResetContent
    case 206 => PartialContent
    case 300 => MultipleChoices
    case 301 => MovedPermanently
    case 302 => Found
    case 303 => SeeOther
    case 304 => NotModified
    case 305 => UseProxy
    case 307 => TemporaryRedirect
    case 400 => BadRequest
    case 401 => Unauthorized
    case 402 => PaymentRequired
    case 403 => Forbidden
    case 404 => NotFound
    case 405 => MethodNotAllowed
    case 406 => NotAcceptable
    case 407 => ProxyAuthenticationRequired
    case 408 => RequestTimeOut
    case 409 => Conflict
    case 410 => Gone
    case 411 => LengthRequired
    case 412 => PreconditionFailed
    case 413 => RequestEntityTooLarge
    case 414 => RequestURITooLarge
    case 415 => UnsupportedMediaType
    case 416 => RequestedRangeNotSatisfiable
    case 417 => ExpectationFailed
    case 500 => InternalServerError
    case 501 => NotImplemented
    case 502 => BadGateway
    case 503 => ServiceUnavailable
    case 504 => GatewayTimeOut
    case 505 => HTTPVersionNotSupported
    case _ => ExtensionCode(code)
  }

  // ---------------------------------------------------------------- the status line (RFC 7230 section 3.1.2)

  /// How many bytes the white-space character takes that `t` ends with, if it ends with one.
  function TrailingBlank(t: Text): (n: nat)
    ensures n <= |t|
  {
    var n := |t|;
    if n >= 1 && (9 <= t[n - 1] <= 13 || t[n - 1] == SP) then 1
    else if n >= 2 && t[n - 2] == 0xC2 && (t[n - 1] == 0x85 || t[n - 1] == 0xA0) then 2
    else if n >= 3 && IsWideBlank(t[n - 3], t[n - 2], t[n - 1]) then 3
    else 0
  }

  /// U+1680, U+2000 to U+200A, U+2028, U+2029, U+202F, U+205F and U+3000
  predicate IsWideBlank(a: byte, b: byte, c: byte) {
    || (a == 0xE1 && b == 0x9A && c == 0x80)
    || (a == 0xE2 && b == 0x80 && (0x80 <= c <= 0x8A || c == 0xA8 || c == 0xA9 || c == 0xAF))
    || (a == 0xE2 && b == 0x81 && c == 0x9F)
    || (a == 0xE3 && b == 0x80 && c == 0x80)
  }

  /// `trim_end`
  function TrimEnd(t: Text): Text {
    var n := TrailingBlank(t);
    if n == 0 then t else TrimEnd(t[..|t| - n])
  }

  const SLASH: byte := 47
  const DOT: byte := 46

  /// Two numbers below 256 with a dot between them, and no slash
  predicate DottedNumbers(digits: Text) {
    && SLASH !in digits
    && var n := UntilLength(digits, DOT);
       && n > 0 && digits[n - 1] == DOT && DOT !in digits[n..]
       && ParseUnsigned(digits[..n - 1], 256).Some?
       && ParseUnsigned(digits[n..], 256).Some?
  }

  /// `validate_version`
  predicate ValidVersion(version: Text) {
    |version| >= 5 && version[..5] == Ascii("HTTP/") && DottedNumbers(version[5..])
  }

  /// The largest number of the machine's `usize`, plus one.
  const WORD: nat := 0x1_0000_0000_0000_0000

  /// A fault while the version is read, and any later one
  function VersionFault(kind: IoKind): HttpError {
    if kind.TimedOut? then Timeout else Unknown
  }

  /// `HttpResponseLine::read_from`.  What `from_utf8_lossy` puts in the place of bytes that are not UTF-8 is neither
  /// blank nor part of a version or a number, so they are refused as they are.
  function ReadStatusLine(input: Text, end: End): Outcome<(StatusCode, Text)> {
    match TryUntil(input, SP, end)
    case None => Fails(VersionFault(end.kind))
    case Some(version) =>
      if version == [] then Fails(ConnectionClosed)
      else if !ValidVersion(TrimEnd(version)) then Fails(Unknown)
      else ReadCode(AfterUntil(input, SP), end)
  }

  /// The same from the status code on
  function ReadCode(input: Text, end: End): Outcome<(StatusCode, Text)> {
    match TryUntil(input, SP, end)
    case None => Fails(Unknown)
    case Some(code) =>
      if |code| != 4 || ParseUnsigned(TrimEnd(code), WORD).None? then Fails(Unknown)
      else
        var input1 := AfterUntil(input, SP);
        match TryUntil(input1, LF, end)
        case None => Fails(Unknown)
        case Some(reason) =>
          if |reason| < 3 then Fails(Unknown)
          else Done((StatusFrom(ParseUnsigned(TrimEnd(code), WORD).value), AfterUntil(input1, LF)))
  }

  function Version11(): Text {
    Ascii("HTTP/1.1")
  }

  function ReasonText(status: StatusCode): (t: Text)
    ensures t != [] && LF !in t && CR !in t
  {
    assert forall i :: 0 <= i < |status.Reason()| ==> status.Reason()[i] in status.Reason();
    Ascii(status.Reason())
  }

  /// `HttpResponseLine::write`
  function StatusLine(status: StatusCode): Text {
    Version11() + [SP] + (Decimal(status.Code()) + [SP] + (ReasonText(status) + CRLF))
  }

  /// The codes a reader gives back: three digits, and an extension code only where there is no name for it.
  ghost predicate GoodStatus(status: StatusCode) {
    100 <= status.Code() < 1000 && StatusFrom(status.Code()) == status
  }

  lemma NamedStatusIsGood(status: StatusCode)
    requires !status.ExtensionCode?
    ensures GoodStatus(status)
  {}

  lemma Version11IsDotted()
    ensures DottedNumbers([49, DOT, 49])
  {
    var rest: Text := [49, DOT, 49];
    UntilFound([49], DOT, [49]);
    assert [49] + [DOT] + [49] == rest && [49] + [DOT] == rest[..2];
    assert rest[..1] == [49] && rest[2..] == [49];
    assert IsNumber([49]) && DigitsValue([49]) == 1;
  }

  lemma Version11IsValid()
    ensures ValidVersion(Version11()) && SP !in Version11()
    ensures TrimEnd(Version11() + [SP]) == Version11()
  {
    var v := Version11();
    Version11IsDotted();
    DottedIsValid([49, DOT, 49]);
    assert v == Ascii("HTTP/") + [49, DOT, 49];
    assert (v + [SP])[..8] == v;
  }

  lemma NumbersHaveNoSpace(n: nat)
    ensures SP !in Decimal(n) && TrimEnd(Decimal(n)) == Decimal(n)
  {
    DecimalDigits(n);
    assert IsDigit(Decimal(n)[|Decimal(n)| - 1]);
  }

  lemma VersionIsRead(rest: Text)
    ensures Until(Version11() + [SP] + rest, SP) == Version11() + [SP]
    ensures AfterUntil(Version11() + [SP] + rest, SP) == rest
  {
    Version11IsValid();
    UntilFound(Version11(), SP, rest);
  }

  lemma CodeIsRead(n: nat, rest: Text)
    ensures Until(Decimal(n) + [SP] + rest, SP) == Decimal(n) + [SP]
    ensures AfterUntil(Decimal(n) + [SP] + rest, SP) == rest
  {
    NumbersHaveNoSpace(n);
    UntilFound(Decimal(n), SP, rest);
  }

  lemma StatusLineParts(status: StatusCode, tail: Text)
    ensures StatusLine(status) + tail
         == Version11() + [SP] + (Decimal(status.Code()) + [SP] + (ReasonText(status) + CRLF + tail))
  {}

  lemma ThreeDigitsAreCode(n: nat, tail: Text, end: End, reason: Text)
    requires 100 <= n < 1000 && reason != [] && LF !in reason
    ensures IsCode(Decimal(n) + [SP] + (reason + CRLF + tail), end, Decimal(n), reason + CRLF, tail)
    ensures ParseUnsigned(TrimEnd(Decimal(n)), WORD) == Some(n)
  {
    NumbersHaveNoSpace(n);
    DecimalLength(n);
    DecimalRoundTrip(n, WORD);
    assert (reason + CRLF)[..|reason + CRLF| - 1] == reason + [CR];
  }

  lemma ThreeDigitsReadBack(status: StatusCode, tail: Text, end: End)
    requires 100 <= status.Code() < 1000
    ensures ReadCode(Decimal(status.Code()) + [SP] + (ReasonText(status) + CRLF + tail), end)
         == Done((StatusFrom(status.Code()), tail))
  {
    var n, reason := status.Code(), ReasonText(status);
    ThreeDigitsAreCode(n, tail, end, reason);
    CodeIsAccepted(Decimal(n) + [SP] + (reason + CRLF + tail), end, Decimal(n), reason + CRLF, tail);
  }

  lemma CodeReadsBack(status: StatusCode, tail: Text, end: End)
    ensures ReadCode(Decimal(status.Code()) + [SP] + (ReasonText(status) + CRLF + tail), end)
         == StatusLineOutcome(status, tail)
  {
    if 100 <= status.Code() < 1000 {
      ThreeDigitsReadBack(status, tail, end);
    } else {
      CodeIsRead(status.Code(), ReasonText(status) + CRLF + tail);
      DecimalLength(status.Code());
    }
  }

  /// What reading a written status line comes to.
  function StatusLineOutcome(status: StatusCode, rest: Text): Outcome<(StatusCode, Text)> {
    if 100 <= status.Code() < 1000 then Done((StatusFrom(status.Code()), rest)) else Fails(Unknown)
  }

  /// A written status line is read as the status its number stands for, if that has three digits, and consumed exactly.
  lemma StatusLineReadsBack(status: StatusCode, tail: Text, end: End)
    ensures ReadStatusLine(StatusLine(status) + tail, end) == StatusLineOutcome(status, tail)
  {
    StatusLineParts(status, tail);
    Version11IsValid();
    VersionIsRead(Decimal(status.Code()) + [SP] + (ReasonText(status) + CRLF + tail));
    CodeReadsBack(status, tail, end);
  }

  /// The round trip holds exactly for the good codes.
  lemma StatusLineRoundTripsExactly(status: StatusCode, tail: Text, end: End)
    ensures ReadStatusLine(StatusLine(status) + tail, end) == Done((status, tail)) <==> GoodStatus(status)
  {
    StatusLineReadsBack(status, tail, end);
  }

  // ---------------------------------------------------------------- which status lines are accepted

  /// "HTTP/", a number below 256, a dot, and another one.
  ghost predicate IsVersion(version: Text, major: Text, minor: Text) {
    && version == Ascii("HTTP/") + (major + [DOT] + minor)
    && ParseUnsigned(major, 256).Some? && ParseUnsigned(minor, 256).Some?
  }

  lemma NumbersAreClean(t: Text, limit: nat)
    requires ParseUnsigned(t, limit).Some?
    ensures DOT !in t && SLASH !in t && t != []
  {
    var digits := if t[0] == PLUS then t[1..] else t;
    assert forall i :: 0 <= i < |t| ==> t[i] == PLUS || IsDigit(t[i]) by {
      forall i | 0 <= i < |t|
        ensures t[i] == PLUS || IsDigit(t[i])
      {
        if i > 0 || t[0] != PLUS {
          assert t[i] == digits[if t[0] == PLUS then i - 1 else i];
        }
      }
    }
  }

  lemma VersionParts(version: Text) returns (major: Text, minor: Text)
    requires ValidVersion(version)
    ensures IsVersion(version, major, minor)
  {
    var digits := version[5..];
    var n := UntilLength(digits, DOT);
    major, minor := digits[..n - 1], digits[n..];
    SplitAt(digits, n - 1);
    assert version == version[..5] + digits;
  }

  lemma NumbersAreDotted(major: Text, minor: Text)
    requires ParseUnsigned(major, 256).Some? && ParseUnsigned(minor, 256).Some?
    ensures DottedNumbers(major + [DOT] + minor)
  {
    var digits := major + [DOT] + minor;
    NumbersAreClean(major, 256);
    NumbersAreClean(minor, 256);
    UntilFound(major, DOT, minor);
    assert |Until(digits, DOT)| == |major| + 1;
    assert digits[..|major|] == major && digits[|major| + 1..] == minor;
  }

  lemma DottedIsValid(digits: Text)
    requires DottedNumbers(digits)
    ensures ValidVersion(Ascii("HTTP/") + digits)
  {
    Halves(Ascii("HTTP/"), digits);
  }

  lemma VersionIsValid(version: Text, major: Text, minor: Text)
    requires IsVersion(version, major, minor)
    ensures ValidVersion(version)
  {
    NumbersAreDotted(major, minor);
    DottedIsValid(major + [DOT] + minor);
  }

  /// A version is valid exactly when it is "HTTP/" and two numbers below 256 with a dot between them.
  lemma VersionExactly(version: Text)
    ensures ValidVersion(version) <==> exists major, minor :: IsVersion(version, major, minor)
  {
    if ValidVersion(version) {
      var major, minor := VersionParts(version);
    }
    if major, minor :| IsVersion(version, major, minor) {
      VersionIsValid(version, major, minor);
    }
  }

  /// Three bytes that make a number, a space, and at least three bytes up to a newline or the end of the input.
  ghost predicate IsCode(input: Text, end: End, code: Text, reason: Text, rest: Text) {
    && SP !in code && |code| == 3 && ParseUnsigned(TrimEnd(code), WORD).Some?
    && |reason| >= 3 && LF !in reason[..|reason| - 1] && (reason[|reason| - 1] == LF || (rest == [] && end.Eof?))
    && input == code + [SP] + (reason + rest)
  }

  /// A version, a space, and such a code with its reason.
  ghost predicate IsStatusLine(input: Text, end: End, version: Text, code: Text, reason: Text, rest: Text) {
    SP !in version && ValidVersion(TrimEnd(version))
    && exists after :: input == version + [SP] + after && IsCode(after, end, code, reason, rest)
  }

  lemma TrimSpace(t: Text)
    ensures TrimEnd(t + [SP]) == TrimEnd(t)
  {
    assert (t + [SP])[..|t|] == t;
  }

  lemma ReasonUntil(reason: Text, rest: Text, end: End)
    requires reason != [] && LF !in reason[..|reason| - 1]
    requires reason[|reason| - 1] == LF || (rest == [] && end.Eof?)
    ensures TryUntil(reason + rest, LF, end) == Some(reason) && AfterUntil(reason + rest, LF) == rest
  {
    var front := reason[..|reason| - 1];
    assert reason == front + [reason[|reason| - 1]];
    if reason[|reason| - 1] == LF {
      UntilFound(front, LF, rest);
    } else {
      assert reason + rest == reason;
      assert LF !in reason;
      UntilSplits(reason, LF);
    }
  }

  lemma CodeIsAccepted(input: Text, end: End, code: Text, reason: Text, rest: Text)
    requires IsCode(input, end, code, reason, rest)
    ensures ReadCode(input, end) == Done((StatusFrom(ParseUnsigned(TrimEnd(code), WORD).value), rest))
  {
    UntilFound(code, SP, reason + rest);
    TrimSpace(code);
    ReasonUntil(reason, rest, end);
  }

  lemma AcceptedIsCode(input: Text, end: End, status: StatusCode, rest: Text) returns (code: Text, reason: Text)
    requires ReadCode(input, end) == Done((status, rest))
    ensures IsCode(input, end, code, reason, rest)
    ensures status == StatusFrom(ParseUnsigned(TrimEnd(code), WORD).value)
  {
    UntilSplits(input, SP);
    var input1 := AfterUntil(input, SP);
    UntilSplits(input1, LF);
    code := Until(input, SP);
    code := code[..|code| - 1];
    reason := Until(input1, LF);
    TrimSpace(code);
    assert Until(input, SP) == code + [SP];
    assert input1 == reason + rest;
  }

  lemma StatusLineIsAccepted(input: Text, end: End, version: Text, code: Text, reason: Text, rest: Text)
    ensures IsStatusLine(input, end, version, code, reason, rest) ==>
              ReadStatusLine(input, end) == Done((StatusFrom(ParseUnsigned(TrimEnd(code), WORD).value), rest))
  {
    if IsStatusLine(input, end, version, code, reason, rest) {
      var after :| input == version + [SP] + after && IsCode(after, end, code, reason, rest);
      UntilFound(version, SP, after);
      TrimSpace(version);
      CodeIsAccepted(after, end, code, reason, rest);
    }
  }

  lemma VersionCut(input: Text, after: Text) returns (version: Text)
    requires ValidVersion(TrimEnd(Until(input, SP))) && AfterUntil(input, SP) == after != []
    ensures SP !in version && ValidVersion(TrimEnd(version)) && input == version + [SP] + after
  {
    UntilSplits(input, SP);
    version := Until(input, SP);
    version := version[..|version| - 1];
    TrimSpace(version);
    assert Until(input, SP) == version + [SP];
  }

  lemma AcceptedIsStatusLine(input: Text, end: End, status: StatusCode, rest: Text)
    returns (version: Text, code: Text, reason: Text)
    ensures ReadStatusLine(input, end) == Done((status, rest)) ==>
              && IsStatusLine(input, end, version, code, reason, rest)
              && status == StatusFrom(ParseUnsigned(TrimEnd(code), WORD).value)
  {
    version, code, reason := [], [], [];
    if ReadStatusLine(input, end) == Done((status, rest)) {
      var after := AfterUntil(input, SP);
      code, reason := AcceptedIsCode(after, end, status, rest);
      version := VersionCut(input, after);
    }
  }

  /// Exactly these lines are accepted, as the status their number stands for.
  lemma StatusLineAcceptsExactly(input: Text, end: End, status: StatusCode, rest: Text)
    ensures ReadStatusLine(input, end) == Done((status, rest)) <==>
              exists version, code, reason ::
                && IsStatusLine(input, end, version, code, reason, rest)
                && status == StatusFrom(ParseUnsigned(TrimEnd(code), WORD).value)
  {
    if ReadStatusLine(input, end) == Done((status, rest)) {
      var version, code, reason := AcceptedIsStatusLine(input, end, status, rest);
    }
    if version, code, reason :|
      IsStatusLine(input, end, version, code, reason, rest)
      && status == StatusFrom(ParseUnsigned(TrimEnd(code), WORD).value)
    {
      StatusLineIsAccepted(input, end, version, code, reason, rest);
    }
  }

  /// The same, one `read_until` at a time, from the status code on.
  method ReadCodeFrom(from: Reader) returns (r: Outcome<StatusCode>)
    requires from.AtLines()
    modifies from`pos, from`filled, from`head
    ensures from.Valid()
    ensures match ReadCode(old(from.Rest()), from.end)
            case Done((status, rest)) => r == Done(status) && from.Rest() == rest
            case Fails(e) => r == Fails(e)
            case _ => false
  {
    var code := from.ReadUntil(SP);
    if code.None? || |code.value| != 4 {
      return Fails(Unknown);
    }
    var number := ParseUnsigned(TrimEnd(code.value), WORD);
    if number.None? {
      return Fails(Unknown);
    }
    var reason := from.ReadUntil(LF);
    if reason.None? || |reason.value| < 3 {
      return Fails(Unknown);
    }
    r := Done(StatusFrom(number.value));
  }

  /// `HttpResponseLine::read_from`
  method ReadStatusLineFrom(from: Reader) returns (r: Outcome<StatusCode>)
    requires from.AtLines()
    modifies from`pos, from`filled, from`head
    ensures from.Valid()
    ensures match ReadStatusLine(old(from.Rest()), from.end)
            case Done((status, rest)) => r == Done(status) && from.Rest() == rest
            case Fails(e) => r == Fails(e)
            case _ => false
  {
    var version := from.ReadUntil(SP);
    if version.None? {
      return Fails(VersionFault(from.end.kind));
    }
    if version.value == [] {
      return Fails(ConnectionClosed);
    }
    if !ValidVersion(TrimEnd(version.value)) {
      return Fails(Unknown);
    }
    r := ReadCodeFrom(from);
  }
}
