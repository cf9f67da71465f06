/** The body of a message: what the headers say of it, and a reader that stays inside its frame. */
module HttpBody {
  import opened Bytes
  import opened HttpText
  import opened HttpReader
  import opened HttpHeaders
  import opened HttpStatus

  /// What the headers announce: a media type, if any, and a positive length.
  datatype Frame = Frame(contentType: Option<Text>, length: nat)

  function TransferEncoding(): Text { Ascii("Transfer-Encoding") }
  function ContentLength(): Text { Ascii("Content-Length") }
  function ContentType(): Text { Ascii("Content-Type") }
  function Identity(): Text { Ascii("identity") }

  /// The part of `Body::read_from` that looks at the headers.  `isMime` says which texts parse as a media type.
  function FrameOf(m: Fields, isMime: Text -> bool): Outcome<Option<Frame>> {
    if TransferEncoding() in m && (|m[TransferEncoding()]| != 1 || m[TransferEncoding()][0] != Identity()) then
      Fails(Unknown)
    else if ContentLength() !in m then Done(None)
    else if |m[ContentLength()]| != 1 then Fails(Unknown)
    else
      match ParseUnsigned(m[ContentLength()][0], WORD)
      case None => Fails(Unknown)
      case Some(length) =>
        if length == 0 then Done(None)
        else if ContentType() !in m then Done(Some(Frame(None, length)))
        else if m[ContentType()] == [] || !isMime(m[ContentType()][0]) then Fails(Unknown)
        else Done(Some(Frame(Some(m[ContentType()][0]), length)))
  }

  /// A transfer encoding the reader supports.
  predicate PlainEncoding(m: Fields) {
    TransferEncoding() in m ==> m[TransferEncoding()] == [Identity()]
  }

  /// The headers announce a body of that length.
  predicate AnnouncesLength(m: Fields, length: nat) {
    && ContentLength() in m && |m[ContentLength()]| == 1
    && ParseUnsigned(m[ContentLength()][0], WORD) == Some(length)
  }

  predicate AnnouncesType(m: Fields, contentType: Option<Text>, isMime: Text -> bool) {
    match contentType
    case None => ContentType() !in m
    case Some(mime) => ContentType() in m && m[ContentType()] != [] && m[ContentType()][0] == mime && isMime(mime)
  }

  /// There is a body exactly when the encoding is plain, one length is announced, a number above zero, and the media
  /// type is absent or parses; there is none, and no error, exactly when no length is announced or it is zero.
  lemma FrameExactly(m: Fields, isMime: Text -> bool)
    ensures forall frame: Frame :: FrameOf(m, isMime) == Done(Some(frame)) <==>
              && PlainEncoding(m) && frame.length > 0
              && AnnouncesLength(m, frame.length) && AnnouncesType(m, frame.contentType, isMime)
    ensures FrameOf(m, isMime) == Done(None) <==>
              PlainEncoding(m) && (ContentLength() !in m || AnnouncesLength(m, 0))
    ensures !FrameOf(m, isMime).Done? ==> FrameOf(m, isMime) == Fails(Unknown)
  {
    PlainIsOne(m);
  }

  lemma PlainIsOne(m: Fields)
    ensures PlainEncoding(m) <==>
              !(TransferEncoding() in m && (|m[TransferEncoding()]| != 1 || m[TransferEncoding()][0] != Identity()))
  {}

  /// A reader limited to so many bytes of another.
  class Take {
    const inner: Reader
    var limit: nat

    ghost predicate Valid()
      reads this, inner
    {
      inner.Valid()
    }

    /// The bytes that can still be read.
    ghost function Left(): nat
      reads this, inner
      requires Valid()
    {
      Min(limit, |inner.Rest()|)
    }

    constructor (inner: Reader, limit: nat)
      requires inner.Valid()
      ensures Valid() && this.inner == inner && this.limit == limit && fresh(this)
    {
      this.inner, this.limit := inner, limit;
    }

    /// A read may be short, but it is empty only at the end or when nothing is asked for.  It meets the fault of the
    /// stream only before the limit, where nothing is left.
    method Read(room: nat) returns (ok: bool, chunk: Text)
      requires Valid()
      modifies this`limit, inner`pos, inner`filled, inner`rooms
      ensures Valid() && |chunk| <= Min(room, old(Left()))
      ensures chunk == [] <==> Min(room, old(Left())) == 0
      ensures inner.pos == old(inner.pos) + |chunk| && limit == old(limit) - |chunk|
      ensures chunk == inner.input[old(inner.pos)..inner.pos]
      ensures ok <==> inner.end.Eof? || old(limit) == 0 || old(inner.Rest()) != []
    {
      ok, chunk := true, [];
      if limit > 0 {
        ok, chunk := inner.ReadSome(Min(room, limit));
      }
      limit := limit - |chunk|;
    }
  }

  class Body {
    const contentType: Option<Text>
    const contentLength: nat
    const content: Take
    var bytesRead: nat
    ghost const start: nat  // where the body begins in the input

    /// The bytes taken from the frame so far, in whichever way.
    ghost function Taken(): int
      reads content.inner
    {
      content.inner.pos - start
    }

    ghost predicate Valid()
      reads this, content, content.inner
    {
      && content.Valid()
      && 0 <= bytesRead <= Taken() <= contentLength
      && content.limit == contentLength - Taken()
    }

    /// The bytes of the body that the input has at all.
    ghost function Available(): int
      reads content.inner
    {
      if contentLength <= |content.inner.input| - start then contentLength else |content.inner.input| - start
    }

    constructor (frame: Frame, from: Reader)
      requires from.Valid()
      ensures Valid() && bytesRead == 0 && start == from.pos && content.inner == from && fresh(content)
      ensures contentType == frame.contentType && contentLength == frame.length
    {
      contentType, contentLength := frame.contentType, frame.length;
      content := new Take(from, frame.length);
      bytesRead := 0;
      start := from.pos;
    }

    /// `Body::read`
    method Read(room: nat) returns (ok: bool, chunk: Text)
      requires Valid()
      modifies this`bytesRead, content`limit, content.inner`pos, content.inner`filled, content.inner`rooms
      ensures Valid() && bytesRead == old(bytesRead) + |chunk|
      ensures content.inner.pos == old(content.inner.pos) + |chunk|
      ensures chunk == content.inner.input[old(content.inner.pos)..content.inner.pos]
      ensures !ok ==> chunk == []
    {
      ok, chunk := content.Read(room);
      bytesRead := bytesRead + |chunk|;
    }

    /// The frame is within the input, or the input ends in it without a fault.
    ghost predicate Readable() {
      content.inner.end.Eof? || start + contentLength <= |content.inner.input|
    }

    /// `ensure_read`: afterwards the input stands behind the frame, or at its end when it is shorter than the frame.
    /// In that case the fault of the stream, if it has one, is met.
    method EnsureRead() returns (ok: bool)
      requires Valid()
      modifies this`bytesRead, content`limit, content.inner`pos, content.inner`filled, content.inner`rooms
      ensures Valid() && Taken() == Available()
      ensures |content.inner.input| >= start + contentLength ==> content.inner.pos == start + contentLength
      ensures ok <==> Readable()
    {
      if bytesRead == contentLength {
        return true;
      }
      var n: nat := contentLength - bytesRead;
      while true
        invariant Valid() && n >= contentLength - Taken()
        decreases n
      {
        var room: int := *;
        if !(0 < room <= n) {
          room := n;
        }
        if n == 0 {
          return true;
        }
        var chunk;
        ok, chunk := content.Read(room);
        if chunk == [] {
          return;
        }
        n := n - |chunk|;
      }
    }

    /// A handler reads what it likes, through the body or its public `content`: it stays within the frame.
    method Handled()
      requires Valid()
      modifies this`bytesRead, content`limit, content.inner`pos, content.inner`filled, content.inner`rooms
      ensures Valid()
    {
      var steps: int := *;
      while steps > 0
        invariant Valid()
      {
        var direct: bool, room: int := *, *;
        room := if room < 0 then 0 else room;
        var read, chunk;
        if direct {
          read, chunk := content.Read(room);
        } else {
          read, chunk := Read(room);
        }
        steps := steps - 1;
      }
    }

    /// And the rest is read for it: whatever it did, the next message starts where the frame ends.
    method AfterAnyHandler() returns (ok: bool)
      requires Valid()
      modifies this`bytesRead, content`limit, content.inner`pos, content.inner`filled, content.inner`rooms
      ensures Valid() && Taken() == Available()
      ensures |content.inner.input| >= start + contentLength ==> content.inner.pos == start + contentLength
      ensures ok <==> Readable()
    {
      Handled();
      ok := EnsureRead();
    }
  }

  /// `Body::read_from`
  method BodyFrom(from: Reader, headers: Headers, isMime: Text -> bool) returns (r: Outcome<()>, body: Body?)
    requires from.Valid()
    ensures match FrameOf(headers.headers, isMime)
            case Done(None) => r == Done(()) && body == null
            case Done(Some(frame)) =>
              && r == Done(()) && body != null && fresh(body) && fresh(body.content)
              && body.content.inner == from && body.Valid() && body.bytesRead == 0 && body.start == from.pos
              && body.contentType == frame.contentType && body.contentLength == frame.length
            case Fails(e) => r == Fails(e) && body == null
            case _ => false
  {
    body := null;
    var encoding := headers.Get(TransferEncoding());
    if encoding.Some? && (|encoding.value| != 1 || encoding.value[0] != Identity()) {
      return Fails(Unknown), null;
    }
    var lengths := headers.Get(ContentLength());
    if lengths.None? {
      return Done(()), null;
    }
    if |lengths.value| != 1 {
      return Fails(Unknown), null;
    }
    var len := ParseUnsigned(lengths.value[0], WORD);
    if len.None? {
      return Fails(Unknown), null;
    }
    if len.value == 0 {
      return Done(()), null;
    }
    var contentType: Option<Text> := None;
    var types := headers.Get(ContentType());
    if types.Some? {
      if types.value == [] || !isMime(types.value[0]) {
        return Fails(Unknown), null;
      }
      contentType := Some(types.value[0]);
    }
    body := new Body(Frame(contentType, len.value), from);
    r := Done(());
  }
}
