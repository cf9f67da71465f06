/** The messages the library builds itself: which of them come back. */
module HttpLibraryMessages {
  import opened Bytes
  import opened HttpText
  import opened HttpReader
  import opened HttpHeaders
  import opened HeaderRoundTrip
  import opened HttpStatus
  import opened HttpBody
  import opened HttpMessages

  /// `Response::from_content`: at most `length` bytes of what the source has are sent.
  function FromContent(mime: Text, length: nat, source: Text): Response {
    Response(OK, map[ContentLength() := [Decimal(length)], ContentType() := [mime]],
             Some(Content(Some(mime), length, source[..Min(length, |source|)])))
  }

  /// `Response::from_str`
  function FromStr(mime: Text, bytes: Text): Response {
    Response(OK, map[], Some(Content(Some(mime), |bytes|, bytes)))
  }

  predicate Capitalised(t: Text) {
    t != [] && 65 <= t[0] <= 90 && forall i :: 0 < i < |t| ==> 97 <= t[i] <= 122
  }

  lemma CapitalisedParts()
    ensures Capitalised(Ascii("Content")) && Capitalised(Ascii("Length")) && Capitalised(Ascii("Type"))
  {}

  lemma ContentLengthIsGood()
    ensures GoodName(ContentLength())
  {
    CapitalisedParts();
    NormalByParts(Ascii("Content"), Ascii("Length"));
    assert Ascii("Content-Length") == Ascii("Content") + [DASH] + Ascii("Length");
  }

  lemma ContentTypeIsGood()
    ensures GoodName(ContentType())
  {
    CapitalisedParts();
    NormalByParts(Ascii("Content"), Ascii("Type"));
    assert Ascii("Content-Type") == Ascii("Content") + [DASH] + Ascii("Type");
  }

  lemma OneMoreByte(t: Text, c: byte)
    ensures NormalName(t + [c]) == NormalName(t) + [if WordStarts(t) then Upper(c) else c]
    ensures WordStarts(t + [c]) == (IsSeparator(c) || (!IsAlphanumeric(c) && WordStarts(t)))
  {
    assert (t + [c])[..|t|] == t;
  }

  lemma {:induction false} WordIsNormal(front: Text, word: Text)
    requires Capitalised(word) && WordStarts(front) && NormalName(front) == front
    ensures NormalName(front + word) == front + word && !WordStarts(front + word)
  {
    var n := |word| - 1;
    Associative(front, word[..n], [word[n]]);
    assert word == word[..n] + [word[n]];
    if n > 0 {
      WordIsNormal(front, word[..n]);
      OneMoreByte(front + word[..n], word[n]);
    } else {
      assert front + word[..0] == front;
      OneMoreByte(front, word[0]);
    }
  }

  lemma AllJoined(p: byte -> bool, a: Text, c: byte, b: Text)
    requires All(p, a) && p(c) && All(p, b)
    ensures All(p, a + [c] + b)
  {
    var t := a + [c] + b;
    forall i | 0 <= i < |t|
      ensures p(t[i])
    {
      assert i > |a| ==> t[i] == b[i - |a| - 1];
    }
  }

  lemma CapitalisedIsToken(t: Text)
    requires Capitalised(t)
    ensures All(IsTokenChar, t)
  {
    forall i | 0 <= i < |t|
      ensures IsAlphanumeric(t[i]) && t[i] < 128
    {
      assert i > 0 ==> 97 <= t[i] <= 122;
    }
  }

  lemma NormalByParts(a: Text, b: Text)
    requires Capitalised(a) && Capitalised(b)
    ensures GoodName(a + [DASH] + b)
  {
    assert [] + a == a;
    WordIsNormal([], a);
    OneMoreByte(a, DASH);
    WordIsNormal(a + [DASH], b);
    CapitalisedIsToken(a);
    CapitalisedIsToken(b);
    AllJoined(IsTokenChar, a, DASH, b);
  }

  lemma NumberIsGoodValue(n: nat)
    ensures Readable(Decimal(n)) && All(IsAscii, Decimal(n))
  {
    DecimalDigits(n);
    forall i | 0 <= i < |Decimal(n)|
      ensures IsFieldContent(Decimal(n)[i]) && IsAscii(Decimal(n)[i]) && !IsBlank(Decimal(n)[i])
    {
      assert IsDigit(Decimal(n)[i]);
    }
  }

  lemma OneMoreGoodField(m: Fields, name: Text, value: Text)
    requires name !in m && GoodName(name)
    ensures GoodFields(m[name := [value]]) <==> GoodFields(m) && Readable(value) && All(IsAscii, value)
  {
    var more := m[name := [value]];
    assert more[name][0] == value;
    assert forall n :: n in m ==> n in more && more[n] == m[n];
  }

  lemma FromContentHeaders(mime: Text, length: nat)
    ensures var m: Fields := map[ContentLength() := [Decimal(length)], ContentType() := [mime]];
            GoodFields(m) <==> Readable(mime) && All(IsAscii, mime)
  {
    ContentLengthIsGood();
    ContentTypeIsGood();
    HeaderNamesDiffer();
    NumberIsGoodValue(length);
    var one: Fields := map[][ContentLength() := [Decimal(length)]];
    OneMoreGoodField(map[], ContentLength(), Decimal(length));
    OneMoreGoodField(one, ContentType(), mime);
    assert map[ContentLength() := [Decimal(length)], ContentType() := [mime]] == one[ContentType() := [mime]];
  }

  lemma FromContentFrame(mime: Text, length: nat, source: Text, tail: Text, end: End, isMime: Text -> bool)
    requires length < WORD
    ensures var r := FromContent(mime, length, source);
            FramedRight(r.headers, r.body, tail, end, isMime) <==>
              isMime(mime) && length > 0 && (length <= |source| || (tail == [] && end.Eof?))
  {
    HeaderNamesDiffer();
    DecimalRoundTrip(length, WORD);
  }

  /// A response made from content of an announced length comes back whole, whatever follows it, exactly when the media
  /// type is one, in clean ASCII, and the source has the length announced, which is not zero; a shorter source comes
  /// back only where the stream ends with it.
  lemma FromContentRoundTripsExactly(
    mime: Text, length: nat, source: Text, order: seq<Text>, tail: Text, end: End, isMime: Text -> bool)
    requires length < WORD && IsOrder(FromContent(mime, length, source).headers, order)
    ensures
      var sent := FromContent(mime, length, source);
      (ReadResponse(ResponseText(sent, order) + tail, end, isMime) == Done((sent, tail))
       <==> && Readable(mime) && All(IsAscii, mime) && isMime(mime)
            && length > 0 && (length <= |source| || (tail == [] && end.Eof?)))
  {
    var sent := FromContent(mime, length, source);
    FromContentHeaders(mime, length);
    FromContentFrame(mime, length, source, tail, end, isMime);
    NamedStatusIsGood(OK);
    ResponseRoundTripsExactly(OK, sent.headers, sent.body, order, tail, end, isMime);
  }

  lemma NoHeadersNoBody(rest: Text, end: End, isMime: Text -> bool)
    ensures ReadMessage(CRLF + rest, end, isMime) == Done((map[], None, rest))
  {
    BlankLineEnds(rest, end, map[]);
  }

  /// A response made from a string announces no length: it comes back without its body, which stays in the stream.
  lemma FromStrLeavesItsBody(mime: Text, bytes: Text, tail: Text, end: End, isMime: Text -> bool)
    ensures ReadResponse(ResponseText(FromStr(mime, bytes), []) + tail, end, isMime)
         == Done((Response(OK, map[], None), bytes + tail))
  {
    var body := Some(Content(Some(mime), |bytes|, bytes));
    var text := MessageText(map[], [], body);
    var rest := CRLF + (bytes + tail);
    assert AllLines(map[], []) + CRLF + bytes == CRLF + bytes;
    Associative(CRLF, bytes, tail);
    Associative(StatusLine(OK), text, tail);
    StatusLineReadsBack(OK, rest, end);
    NoHeadersNoBody(bytes + tail, end, isMime);
    ResponseInTwoParts(Response(OK, map[], None), rest, bytes + tail, end, isMime);
  }

  lemma TwoLengthsAreUnreadable(m: Fields, order: seq<Text>, tail: Text, end: End, isMime: Text -> bool)
    requires GoodFields(m) && IsOrder(m, order)
    requires ContentLength() in m && |m[ContentLength()]| >= 2
    ensures ReadMessage(AllLines(m, order) + CRLF + tail, end, isMime) == Fails(Unknown)
  {
    HeadersRoundTripExactly(m, order, tail, end);
  }

  lemma AnnouncedIsGood(headers: Fields)
    requires GoodFields(headers)
    ensures GoodFields(Announced(headers, None))
  {
    ContentLengthIsGood();
    NumberIsGoodValue(0);
  }

  lemma ResponseFails(got: StatusCode, rest: Text, end: End, isMime: Text -> bool)
    ensures ReadMessage(rest, end, isMime) == Fails(Unknown) ==>
              ResponseAfter(Done((got, rest)), end, isMime) == Fails(Unknown)
  {}

  /// Written a second time, a response without a body announces two lengths, and cannot be read.
  lemma SecondWriteIsUnreadable(
    status: StatusCode, headers: Fields, order: seq<Text>, tail: Text, end: End, isMime: Text -> bool)
    requires GoodStatus(status) && GoodFields(headers)
    requires IsOrder(Announced(Announced(headers, None), None), order)
    ensures ReadResponse(ResponseText(Response(status, Announced(headers, None), None), order) + tail, end, isMime)
         == Fails(Unknown)
  {
    var once := Announced(headers, None);
    var twice := Announced(once, None);
    var lines := AllLines(twice, order) + CRLF;
    assert MessageText(once, order, None) == lines + [] == lines;
    AnnouncedIsGood(headers);
    AnnouncedIsGood(once);
    assert |twice[ContentLength()]| >= 2;
    TwoLengthsAreUnreadable(twice, order, tail, end, isMime);
    Associative(StatusLine(status), lines, tail);
    StatusLineReadsBack(status, lines + tail, end);
    ResponseFails(status, lines + tail, end, isMime);
  }
}
