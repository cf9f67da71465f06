/** Reading and writing header fields. */
module HttpHeaders {
  import opened Bytes
  import opened HttpText
  import opened HttpReader

  datatype Header = Header(name: Text, value: Text)

  // ---------------------------------------------------------------- the line

  ghost predicate CrlfAt(input: Text, i: nat) {
    i + 2 <= |input| && input[i] == CR && input[i + 1] == LF
  }

  ghost predicate FirstCrlf(input: Text, i: nat) {
    CrlfAt(input, i) && forall k: nat :: k < i ==> !CrlfAt(input, k)
  }

  /// The bytes up to and including the first CRLF, or 0 when there is none.
  function LineLength(input: Text): (n: nat)
    ensures n == 0 ==> forall i: nat :: !CrlfAt(input, i)
    ensures n > 0 ==> 2 <= n <= |input| && FirstCrlf(input, n - 2)
  {
    if |input| < 2 then 0
    else if input[0] == CR && input[1] == LF then 2
    else
      var n := LineLength(input[1..]);
      assert forall i: nat :: i > 0 ==> (CrlfAt(input, i) <==> CrlfAt(input[1..], i - 1));
      if n == 0 then 0 else n + 1
  }

  lemma LineLengthUnique(input: Text, i: nat)
    requires FirstCrlf(input, i)
    ensures LineLength(input) == i + 2
  {
    var n := LineLength(input);
    assert n > 0 by {
      assert CrlfAt(input, i);
    }
    assert CrlfAt(input, n - 2);
  }

  /// A chunk that ends in the first newline after collected ones can only add a CRLF at its very end.
  lemma CrlfOnlyAtEnd(line: Text, chunk: Text, rest: Text)
    requires line != [] ==> line[|line| - 1] == LF
    requires chunk != [] && LF !in chunk[..|chunk| - 1]
    requires forall i: nat :: !CrlfAt(line, i)
    ensures var longer := line + chunk;
            && longer + rest == line + (chunk + rest)
            && (forall i: nat :: CrlfAt(longer, i) ==> i == |longer| - 2)
            && (forall i: nat :: CrlfAt(longer, i) ==> LineLength(longer + rest) == |longer|)
  {
    var longer, front := line + chunk, chunk[..|chunk| - 1];
    forall i: nat
      ensures CrlfAt(longer, i) ==> i == |longer| - 2
    {
      if i + 1 < |line| {
        assert !CrlfAt(line, i);
      } else if i + 2 < |longer| {
        assert longer[i + 1] == front[i + 1 - |line|];
      }
    }
    if i: nat :| CrlfAt(longer, i) {
      forall k: nat | k < i
        ensures !CrlfAt(longer + rest, k)
      {
        assert !CrlfAt(longer, k);
      }
      LineLengthUnique(longer + rest, i);
    }
  }

  /// The outcome of reading one line of `input`, with `rest` left over.  Where nothing more arrives, the loop meets the
  /// stream's fault, or reads nothing for ever.
  ghost predicate LineRead(input: Text, end: End, r: Outcome<Text>, rest: Text) {
    var n := LineLength(input);
    if n == 0 then r == NoLine(end) else r == Done(input[..n]) && rest == input[n..]
  }

  function NoLine<T>(end: End): Outcome<T> {
    match end
    case Eof => Hangs
    case Broken(kind) => Fails(FromIo(kind))
  }

  predicate EndsInCrlf(t: Text) {
    |t| >= 2 && t[|t| - 1] == LF && t[|t| - 2] == CR
  }

  /// What the loop has collected: whole chunks of the input, and no CRLF.
  ghost predicate Collected(input: Text, line: Text, rest: Text) {
    && input == line + rest && (line == [] || line[|line| - 1] == LF || rest == [])
    && forall i: nat :: !CrlfAt(line, i)
  }

  /// The same after one more chunk: a CRLF can only be at the end, and is then the first of the input.
  ghost predicate Grown(input: Text, line: Text, rest: Text) {
    && input == line + rest && (line == [] || line[|line| - 1] == LF || rest == [])
    && forall i: nat :: CrlfAt(line, i) ==> i == |line| - 2 && LineLength(input) == |line|
  }

  /// One round of the loop of `Header::read_from`: a chunk up to the next newline is added to the line.
  method ReadChunk(from: Reader, line: Text, ghost input: Text) returns (longer: Option<Text>)
    requires from.AtLines() && Collected(input, line, from.Rest())
    modifies from`pos, from`filled, from`head
    ensures from.Valid()
    ensures longer.None? ==> LineRead(input, from.end, NoLine(from.end), from.Rest())
    ensures longer.Some? ==> Grown(input, longer.value, from.Rest())
    ensures longer.Some? ==> |longer.value| >= |line| && |longer.value| + |from.Rest()| == |line| + |old(from.Rest())|
    ensures longer.Some? && |longer.value| == |line| ==>
              longer.value == line && old(from.Rest()) == [] && from.end.Eof?
  {
    ghost var rest := from.Rest();
    var chunk := from.ReadUntil(LF);
    if chunk.None? {
      NoLineAhead(line, rest);
      return None;
    }
    if chunk.value == [] {
      longer := Some(line);
    } else {
      CrlfOnlyAtEnd(line, chunk.value, from.Rest());
      longer := Some(line + chunk.value);
    }
  }

  lemma NoLineAhead(line: Text, rest: Text)
    requires LF !in rest && forall i: nat :: !CrlfAt(line, i)
    ensures LineLength(line + rest) == 0
  {
    var input := line + rest;
    forall i: nat ensures !CrlfAt(input, i) {
      assert !CrlfAt(line, i);
      assert i + 1 >= |line| && i + 1 < |input| ==> input[i + 1] == rest[i + 1 - |line|];
    }
  }

  lemma NothingMore(input: Text, end: End, line: Text, rest: Text)
    requires Collected(input, line, rest) && rest == []
    ensures LineRead(input, end, NoLine(end), rest)
  {
    assert input == line;
  }

  lemma LineGoesOn(input: Text, line: Text, rest: Text)
    requires Grown(input, line, rest) && !EndsInCrlf(line)
    ensures Collected(input, line, rest)
  {}

  lemma OneWholeLine(input: Text, end: End, line: Text, rest: Text)
    requires Grown(input, line, rest) && EndsInCrlf(line)
    ensures LineRead(input, end, Done(line), rest)
  {
    assert CrlfAt(line, |line| - 2);
  }

  /// `Header::read_from` up to the end of the line.
  method ReadLine(from: Reader) returns (r: Outcome<Text>)
    requires from.AtLines()
    modifies from`pos, from`filled, from`head
    ensures from.Valid()
    ensures LineRead(old(from.Rest()), from.end, r, from.Rest())
  {
    var line: Text := [];
    ghost var input := from.Rest();
    while true
      invariant from.AtLines() && Collected(input, line, from.Rest())
      decreases |from.Rest()|
    {
      var longer := ReadChunk(from, line, input);
      if longer.None? {
        return NoLine(from.end);
      }
      if |longer.value| == |line| {
        NothingMore(input, from.end, line, from.Rest());
        return NoLine(from.end);
      }
      line := longer.value;
      if EndsInCrlf(line) {
        OneWholeLine(input, from.end, line, from.Rest());
        return Done(line);
      }
      LineGoesOn(input, line, from.Rest());
    }
  }

  // ---------------------------------------------------------------- the name

  predicate IsSeparator(c: byte) {
    c == SP || c == DASH
  }

  function Upper(c: byte): byte {
    if 97 <= c <= 122 then c - 32 else c
  }

  function Lower(c: byte): byte {
    if 65 <= c <= 90 then c + 32 else c
  }

  /// The next letter or digit after `t` begins a word.
  function WordStarts(t: Text): bool {
    if t == [] then true
    else
      var c := t[|t| - 1];
      IsSeparator(c) || (!IsAlphanumeric(c) && WordStarts(t[..|t| - 1]))
  }

  /// Every letter that begins a word is upper-cased; no other byte changes.
  function NormalName(name: Text): (r: Text)
    ensures |r| == |name|
    ensures forall i :: 0 <= i < |name| ==> Lower(r[i]) == Lower(name[i])
  {
    if name == [] then []
    else
      var n := |name| - 1;
      NormalName(name[..n]) + [if WordStarts(name[..n]) then Upper(name[n]) else name[n]]
  }

  lemma {:induction false} WordStartsNormal(name: Text)
    ensures WordStarts(NormalName(name)) == WordStarts(name)
  {
    if name == [] {
    } else {
      WordStartsNormal(name[..|name| - 1]);
      assert NormalName(name)[..|name| - 1] == NormalName(name[..|name| - 1]);
    }
  }

  /// Normalising is stable.
  lemma {:induction false} NormalNameStable(name: Text)
    ensures NormalName(NormalName(name)) == NormalName(name)
  {
    if name == [] {
    } else {
      var n := |name| - 1;
      NormalNameStable(name[..n]);
      WordStartsNormal(name[..n]);
      assert NormalName(name)[..n] == NormalName(name[..n]);
    }
  }

  lemma {:induction false} NormalNameToken(name: Text)
    requires All(IsTokenChar, name)
    ensures All(IsTokenChar, NormalName(name))
  {
    if name == [] {
    } else {
      NormalNameToken(name[..|name| - 1]);
    }
  }

  /// `normalize_header_name`
  method NormalizeHeaderName(name: Text) returns (normalized: Text)
    ensures normalized == NormalName(name)
  {
    normalized := [];
    var nextUpper := true;
    for i := 0 to |name|
      invariant normalized == NormalName(name[..i]) && nextUpper == WordStarts(name[..i])
    {
      var c := name[i];
      assert name[..i + 1][..i] == name[..i];
      if IsAlphanumeric(c) && nextUpper {
        normalized := normalized + [Upper(c)];
        nextUpper := false;
        continue;
      }
      if IsSeparator(c) {
        nextUpper := true;
      }
      normalized := normalized + [c];
    }
    assert name[..|name|] == name;
  }

  // ---------------------------------------------------------------- one header line

  /// The length of the longest prefix of token characters.
  function TokenLength(t: Text): (n: nat)
    ensures n <= |t| && All(IsTokenChar, t[..n])
    ensures n < |t| ==> !IsTokenChar(t[n])
  {
    if t == [] || !IsTokenChar(t[0]) then 0
    else
      var n := 1 + TokenLength(t[1..]);
      assert t[..n] == [t[0]] + t[1..][..n - 1];
      n
  }

  function DropBlanks(t: Text): (r: Text)
    ensures r == [] || !IsBlank(r[0])
    ensures |r| <= |t| && r == t[|t| - |r|..]
    ensures forall i :: 0 <= i < |t| - |r| ==> IsBlank(t[i])
  {
    if t != [] && IsBlank(t[0]) then DropBlanks(t[1..]) else t
  }

  function AllFieldContent(t: Text): bool {
    forall i :: 0 <= i < |t| ==> IsFieldContent(t[i])
  }

  /// The line without its CRLF.
  function Content(line: Text): Text
    requires |line| >= 2
  {
    line[..|line| - 2]
  }

  /// What `parse_header_line` makes of a line that ends in CRLF: `None` for a blank line.
  function ParsedLine(line: Text): Outcome<Option<Header>>
    requires |line| >= 2
  {
    if |line| == 2 then Done(None)
    else
      var content := Content(line);
      var n := TokenLength(content);
      if n == 0 then Fails(InvalidRequest)
      else if n == |content| then Panics
      else if content[n] != COLON || n + 1 == |content| then Fails(InvalidRequest)
      else ParsedField(content[..n], DropBlanks(content[n + 1..]))
  }

  /// The same from the colon and its blanks on.
  function ParsedField(name: Text, value: Text): Outcome<Option<Header>> {
    if AllFieldContent(value) then Done(Some(Header(NormalName(name), Latin1(value)))) else Fails(InvalidRequest)
  }

  /// The loop of `parse_header_line` over the name.
  method ReadToken(content: Text) returns (name: Text)
    ensures name == content[..TokenLength(content)]
  {
    name := [];
    var i := 0;
    while i < |content|
      invariant 0 <= i <= TokenLength(content) && name == content[..i]
    {
      var c := content[i];
      if !IsTokenChar(c) {
        break;
      }
      name := name + [c];
      i := i + 1;
    }
  }

  /// The loop of `parse_header_line` over the initial blanks of the value.
  method SkipBlanks(content: Text, start: nat) returns (j: nat)
    requires start <= |content|
    ensures start <= j <= |content| && content[j..] == DropBlanks(content[start..])
  {
    j := start;
    while j < |content| && IsBlank(content[j])
      invariant start <= j <= |content| && DropBlanks(content[j..]) == DropBlanks(content[start..])
    {
      j := j + 1;
    }
  }

  /// The loop of `parse_header_line` over the rest of the value: every byte must be field content.
  method ReadValue(content: Text, start: nat) returns (value: Option<Text>)
    requires start <= |content|
    ensures value == if AllFieldContent(content[start..]) then Some(Latin1(content[start..])) else None
  {
    var fieldValue: Text := [];
    for k := start to |content|
      invariant fieldValue == Latin1(content[start..k])
      invariant forall m :: start <= m < k ==> IsFieldContent(content[m])
    {
      var c := content[k];
      if !IsFieldContent(c) {
        assert content[start..][k - start] == c;
        return None;
      }
      Latin1More(content, start, k);
      fieldValue := fieldValue + Utf8(c);
    }
    assert content[start..|content|] == content[start..];
    value := Some(fieldValue);
  }

  lemma Latin1More(content: Text, start: nat, k: nat)
    requires start <= k < |content|
    ensures Latin1(content[start..k + 1]) == Latin1(content[start..k]) + Utf8(content[k])
  {
    var longer := content[start..k + 1];
    assert longer[..|longer| - 1] == content[start..k] && longer[|longer| - 1] == content[k];
  }

  /// `parse_header_line`.  A line made of token characters only, without a colon, is indexed past its end.
  method ParseHeaderLine(line: Text) returns (r: Outcome<Option<Header>>)
    requires |line| >= 2
    ensures r == ParsedLine(line)
  {
    if |line| == 2 {
      return Done(None);
    }
    var content := Content(line);
    var name := ReadToken(content);
    var i := |name|;
    if name == [] {
      return Fails(InvalidRequest);
    }
    if i >= |content| {
      return Panics;
    }
    if content[i] != COLON {
      return Fails(InvalidRequest);
    }
    var valueStart := i + 1;
    if |content| - valueStart < 1 {
      return Fails(InvalidRequest);
    }
    valueStart := SkipBlanks(content, valueStart);
    var value := ReadValue(content, valueStart);
    if value.None? {
      return Fails(InvalidRequest);
    }
    name := NormalizeHeaderName(name);
    r := Done(Some(Header(name, value.value)));
  }

  // ---------------------------------------------------------------- what is accepted

  /// The grammar: a token, a colon, and at least one byte of field content (RFC 7230 section 3.2, without empty fields
  /// and without folding).
  ghost predicate IsField(content: Text, name: Text, value: Text) {
    && content == name + [COLON] + value
    && name != [] && All(IsTokenChar, name)
    && value != [] && All(IsFieldContent, value)
  }

  lemma {:induction false} TokenEnds(name: Text, rest: Text)
    requires All(IsTokenChar, name) && rest != [] && !IsTokenChar(rest[0])
    ensures TokenLength(name + rest) == |name|
  {
    if name == [] {
      assert name + rest == rest;
    } else {
      TokenEnds(name[1..], rest);
      assert (name + rest)[1..] == name[1..] + rest;
    }
  }

  lemma ContentBehind(value: Text, d: nat)
    requires d <= |value| && forall i :: 0 <= i < d ==> IsBlank(value[i])
    ensures AllFieldContent(value[d..]) <==> All(IsFieldContent, value)
  {
    assert forall i :: d <= i < |value| ==> value[i] == value[d..][i - d];
  }

  lemma FieldContentAfterBlanks(value: Text)
    ensures AllFieldContent(DropBlanks(value)) <==> All(IsFieldContent, value)
  {
    ContentBehind(value, |value| - |DropBlanks(value)|);
  }

  lemma FieldIsRead(line: Text, name: Text, value: Text)
    requires |line| > 2 && IsField(Content(line), name, value)
    ensures ParsedLine(line) == ParsedField(name, DropBlanks(value))
         == Done(Some(Header(NormalName(name), Latin1(DropBlanks(value)))))
  {
    var content := Content(line);
    var rest := [COLON] + value;
    assert content == name + rest;
    TokenEnds(name, rest);
    assert content[..|name|] == name && content[|name| + 1..] == value;
    FieldContentAfterBlanks(value);
  }

  lemma ReadIsField(line: Text) returns (name: Text, value: Text)
    requires |line| > 2 && ParsedLine(line).Done?
    ensures IsField(Content(line), name, value)
  {
    var content := Content(line);
    var n := TokenLength(content);
    name, value := content[..n], content[n + 1..];
    assert AllFieldContent(DropBlanks(value));
    FieldContentAfterBlanks(value);
    SplitAt(content, n);
  }

  /// A non-blank line is read as a header exactly when it is a field; the name is the one sent, but for case.
  lemma AcceptsExactly(line: Text)
    requires |line| > 2
    ensures ParsedLine(line).Done? <==> exists name, value :: IsField(Content(line), name, value)
    ensures forall name, value :: IsField(Content(line), name, value) ==>
              ParsedLine(line) == Done(Some(Header(NormalName(name), Latin1(DropBlanks(value)))))
  {
    forall name, value | IsField(Content(line), name, value)
      ensures ParsedLine(line) == Done(Some(Header(NormalName(name), Latin1(DropBlanks(value)))))
    {
      FieldIsRead(line, name, value);
    }
    if ParsedLine(line).Done? {
      var name, value := ReadIsField(line);
    }
  }

  /// The reader panics exactly on a non-empty line of token characters.
  lemma PanicsExactly(line: Text)
    requires |line| >= 2
    ensures ParsedLine(line).Panics? <==> |line| > 2 && All(IsTokenChar, Content(line))
    ensures !ParsedLine(line).Hangs?
  {
    var content := Content(line);
    if |line| > 2 {
      assert content[..|content|] == content;
    }
  }

  // ---------------------------------------------------------------- all headers

  /// The headers of a message by name, each with its values in order.
  type Fields = map<Text, seq<Text>>

  function AddField(m: Fields, name: Text, value: Text): Fields {
    m[name := (if name in m then m[name] else []) + [value]]
  }

  /// What `Headers::read_from` makes of the input: the headers, and the input after the blank line.
  function ReadFields(input: Text, end: End, m: Fields): Outcome<(Fields, Text)>
    decreases |input|
  {
    var n := LineLength(input);
    if n == 0 then NoLine(end)
    else
      match ParsedLine(input[..n])
      case Done(None) => Done((m, input[n..]))
      case Done(Some(h)) => ReadFields(input[n..], end, AddField(m, h.name, h.value))
      case Fails(e) => Fails(e)
      case Panics => Panics
      case Hangs => Hangs
  }

  function FieldLine(name: Text, value: Text): Text {
    name + [COLON, SP] + value + CRLF
  }

  function FieldLines(name: Text, values: seq<Text>): Text {
    if values == [] then [] else FieldLine(name, values[0]) + FieldLines(name, values[1..])
  }

  /// The header lines of `m`, name by name.
  function AllLines(m: Fields, order: seq<Text>): Text
    requires forall i :: 0 <= i < |order| ==> order[i] in m
  {
    if order == [] then [] else FieldLines(order[0], m[order[0]]) + AllLines(m, order[1..])
  }

  /// An order in which an iteration over the map may visit it.
  ghost predicate IsOrder(m: Fields, order: seq<Text>) {
    && (forall i :: 0 <= i < |order| ==> order[i] in m)
    && (forall i, j :: 0 <= i < j < |order| ==> order[i] != order[j])
    && (forall name :: name in m ==> name in order)
  }

  class Headers {
    var headers: Fields

    constructor ()
      ensures headers == map[] && fresh(this)
    {
      headers := map[];
    }

    method Add(header: Header)
      modifies this
      ensures headers == AddField(old(headers), header.name, header.value)
    {
      var values := if header.name in headers then headers[header.name] else [];
      values := values + [header.value];
      headers := headers[header.name := values];
    }

    function Get(name: Text): Option<seq<Text>>
      reads this
    {
      if name in headers then Some(headers[name]) else None
    }

    /// `Headers::read_from`, adding to the headers there are.
    method ReadFrom(from: Reader) returns (r: Outcome<()>)
      requires from.AtLines()
      modifies this, from`pos, from`filled, from`head
      ensures from.Valid()
      ensures match ReadFields(old(from.Rest()), from.end, old(headers))
              case Done((m, rest)) => r == Done(()) && headers == m && from.Rest() == rest
              case Fails(e) => r == Fails(e)
              case Panics => r == Panics
              case Hangs => r == Hangs
    {
      while true
        invariant from.AtLines()
        invariant ReadFields(old(from.Rest()), from.end, old(headers)) == ReadFields(from.Rest(), from.end, headers)
        decreases |from.Rest()|
      {
        var line := ReadLine(from);
        match line {
          case Fails(e) => return Fails(e);
          case Hangs => return Hangs;
          case Done(text) =>
            var header := ParseHeaderLine(text);
            match header {
              case Done(None) => return Done(());
              case Done(Some(h)) => Add(h);
              case Fails(e) => return Fails(e);
              case Panics => return Panics;
              case Hangs => return Hangs;
            }
        }
      }
    }

    /// `Headers::write`: the map is visited in an order of its own choosing, which the caller does not know.
    method Write(to: Writer) returns (ghost order: seq<Text>)
      modifies to
      ensures IsOrder(headers, order)
      ensures to.out == old(to.out) + AllLines(headers, order) + CRLF
    {
      order := [];
      var left := headers.Keys;
      while left != {}
        invariant left <= headers.Keys
        invariant forall name :: name in headers ==> (name in left <==> name !in order)
        invariant forall i :: 0 <= i < |order| ==> order[i] in headers
        invariant forall i, j :: 0 <= i < j < |order| ==> order[i] != order[j]
        invariant to.out == old(to.out) + AllLines(headers, order)
        decreases left
      {
        var name: Text :| name in left;
        left := left - {name};
        AllLinesMore(headers, order, name);
        Associative(old(to.out), AllLines(headers, order), FieldLines(name, headers[name]));
        order := order + [name];
        WriteValues(name, headers[name], to);
      }
      to.WriteAll(CRLF);
    }

    /// The inner loop of `Headers::write`.
    method WriteValues(name: Text, values: seq<Text>, to: Writer)
      modifies to
      ensures to.out == old(to.out) + FieldLines(name, values)
    {
      for i := 0 to |values|
        invariant to.out == old(to.out) + FieldLines(name, values[..i])
      {
        FieldLinesMore(name, values[..i], values[i]);
        assert values[..i + 1] == values[..i] + [values[i]];
        Associative(old(to.out), FieldLines(name, values[..i]), FieldLine(name, values[i]));
        WriteHeader(Header(name, values[i]), to);
      }
      assert values[..|values|] == values;
    }

    /// `Header::write`
    method WriteHeader(header: Header, to: Writer)
      modifies to
      ensures to.out == old(to.out) + FieldLine(header.name, header.value)
    {
      to.WriteAll(header.name);
      to.WriteAll([COLON, SP]);
      to.WriteAll(header.value);
      to.WriteAll(CRLF);
    }
  }

  lemma {:induction false} FieldLinesMore(name: Text, values: seq<Text>, value: Text)
    ensures FieldLines(name, values + [value]) == FieldLines(name, values) + FieldLine(name, value)
  {
    if values == [] {
      assert FieldLines(name, [value]) == FieldLine(name, value) + FieldLines(name, []);
    } else {
      FieldLinesMore(name, values[1..], value);
      assert (values + [value])[1..] == values[1..] + [value];
    }
  }

  lemma {:induction false} AllLinesMore(m: Fields, order: seq<Text>, name: Text)
    requires name in m && forall i :: 0 <= i < |order| ==> order[i] in m
    ensures AllLines(m, order + [name]) == AllLines(m, order) + FieldLines(name, m[name])
  {
    if order == [] {
      assert AllLines(m, [name]) == FieldLines(name, m[name]) + AllLines(m, []);
    } else {
      AllLinesMore(m, order[1..], name);
      assert (order + [name])[1..] == order[1..] + [name];
    }
  }
}
