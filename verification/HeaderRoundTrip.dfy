/** Headers written in any order are read back: exactly which headers, and exactly what is consumed. */
module HeaderRoundTrip {
  import opened Bytes
  import opened HttpText
  import opened HttpReader
  import opened HttpHeaders

  // ---------------------------------------------------------------- well-formed headers

  ghost predicate GoodName(name: Text) {
    name != [] && All(IsTokenChar, name) && NormalName(name) == name
  }

  /// What a value read from a message looks like.
  ghost predicate Readable(value: Text) {
    All(IsFieldContent, value) && (value == [] || !IsBlank(value[0]))
  }

  ghost predicate ReadableFields(m: Fields) {
    forall name :: name in m ==>
      GoodName(name) && m[name] != [] && forall i :: 0 <= i < |m[name]| ==> Readable(m[name][i])
  }

  ghost predicate AsciiFields(m: Fields) {
    forall name, i :: name in m && 0 <= i < |m[name]| ==> All(IsAscii, m[name][i])
  }

  /// Normalised token names, at least one value each, and ASCII field content without a leading blank as values.
  ghost predicate GoodFields(m: Fields) {
    ReadableFields(m) && AsciiFields(m)
  }

  // ---------------------------------------------------------------- one line

  lemma LineEnds(content: Text, tail: Text)
    requires CR !in content
    ensures LineLength(content + CRLF + tail) == |content| + 2
  {
    var input := content + CRLF + tail;
    assert input[|content|] == CR && input[|content| + 1] == LF;
    forall k: nat | k < |content|
      ensures !CrlfAt(input, k)
    {
      assert input[k] == content[k];
    }
    LineLengthUnique(input, |content|);
  }

  lemma BlanksDropped(value: Text)
    requires Readable(value)
    ensures DropBlanks([SP] + value) == value
  {
    assert ([SP] + value)[1..] == value;
  }

  /// A written header line is the next line of the input.
  lemma OneLine(name: Text, value: Text, tail: Text)
    requires GoodName(name) && Readable(value)
    ensures var line := FieldLine(name, value);
            LineLength(line + tail) == |line| && (line + tail)[..|line|] == line && (line + tail)[|line|..] == tail
  {
    var content := name + [COLON, SP] + value;
    assert CR !in content;
    assert FieldLine(name, value) + tail == content + CRLF + tail;
    LineEnds(content, tail);
  }

  /// And it is read as that header.
  lemma OneLineParses(name: Text, value: Text)
    requires GoodName(name) && Readable(value)
    ensures ParsedLine(FieldLine(name, value)) == Done(Some(Header(name, Latin1(value))))
  {
    var line := FieldLine(name, value);
    assert Content(line) == name + [COLON, SP] + value == name + [COLON] + ([SP] + value);
    assert IsField(Content(line), name, [SP] + value);
    FieldIsRead(line, name, [SP] + value);
    BlanksDropped(value);
  }

  // ---------------------------------------------------------------- all values of a name

  function Latin1All(values: seq<Text>): (r: seq<Text>)
    ensures |r| == |values| && forall i :: 0 <= i < |values| ==> r[i] == Latin1(values[i])
  {
    seq(|values|, i requires 0 <= i < |values| => Latin1(values[i]))
  }

  function Had(m: Fields, name: Text): seq<Text> {
    if name in m then m[name] else []
  }

  lemma ReadOneLine(name: Text, value: Text, tail: Text, end: End, m: Fields)
    requires GoodName(name) && Readable(value)
    ensures ReadFields(FieldLine(name, value) + tail, end, m)
         == ReadFields(tail, end, AddField(m, name, Latin1(value)))
  {
    OneLine(name, value, tail);
    OneLineParses(name, value);
  }

  /// The values `name` gets when `values` are added one by one.
  function Extended(m: Fields, name: Text, values: seq<Text>): Fields {
    m[name := Had(m, name) + Latin1All(values)]
  }

  lemma ExtendedOneByOne(m: Fields, name: Text, values: seq<Text>)
    requires values != []
    ensures Extended(m, name, values) == Extended(AddField(m, name, Latin1(values[0])), name, values[1..])
  {
    var first, rest := Latin1(values[0]), Latin1All(values[1..]);
    assert Latin1All(values) == [first] + rest;
    Associative(Had(m, name), [first], rest);
    UpdateTwice(m, name, Had(m, name) + [first], Had(m, name) + [first] + rest);
  }

  lemma UpdateTwice(m: Fields, name: Text, a: seq<Text>, b: seq<Text>)
    ensures m[name := a][name := b] == m[name := b]
  {}

  lemma {:induction false} OneName(name: Text, values: seq<Text>, tail: Text, end: End, m: Fields)
    requires GoodName(name) && forall i :: 0 <= i < |values| ==> Readable(values[i])
    requires name in m || values != []
    ensures ReadFields(FieldLines(name, values) + tail, end, m)
         == ReadFields(tail, end, Extended(m, name, values))
    decreases |values|
  {
    if values == [] {
      assert [] + tail == tail;
      assert Had(m, name) + Latin1All([]) == Had(m, name);
      assert Extended(m, name, []) == m;
    } else {
      var line, rest := FieldLine(name, values[0]), FieldLines(name, values[1..]);
      Associative(line, rest, tail);
      ReadOneLine(name, values[0], rest + tail, end, m);
      ExtendedOneByOne(m, name, values);
      OneName(name, values[1..], tail, end, AddField(m, name, Latin1(values[0])));
    }
  }

  // ---------------------------------------------------------------- all headers

  /// The headers as they come back.
  function ReadBack(m: Fields): Fields {
    map name | name in m :: Latin1All(m[name])
  }

  ghost predicate SomeOrder(m: Fields, order: seq<Text>) {
    && (forall i :: 0 <= i < |order| ==> order[i] in m)
    && (forall i, j :: 0 <= i < j < |order| ==> order[i] != order[j])
  }

  function ReadBackOf(m: Fields, order: seq<Text>): Fields {
    map name | name in m && name in order :: Latin1All(m[name])
  }

  lemma BlankLineEnds(tail: Text, end: End, got: Fields)
    ensures ReadFields(CRLF + tail, end, got) == Done((got, tail))
  {
    assert CRLF + tail == [] + CRLF + tail;
    LineEnds([], tail);
    assert (CRLF + tail)[..2] == CRLF && (CRLF + tail)[2..] == tail;
  }

  lemma ReadBackOneByOne(m: Fields, order: seq<Text>, got: Fields)
    requires SomeOrder(m, order) && order != [] && order[0] !in got
    ensures got + ReadBackOf(m, order) == Extended(got, order[0], m[order[0]]) + ReadBackOf(m, order[1..])
  {
    var name := order[0];
    assert Had(got, name) + Latin1All(m[name]) == Latin1All(m[name]);
    assert forall n :: n in order <==> n == name || n in order[1..];
    assert name !in order[1..];
  }

  lemma {:induction false} AllNames(m: Fields, order: seq<Text>, tail: Text, end: End, got: Fields)
    requires ReadableFields(m) && SomeOrder(m, order)
    requires forall i :: 0 <= i < |order| ==> order[i] !in got
    ensures ReadFields(AllLines(m, order) + (CRLF + tail), end, got) == Done((got + ReadBackOf(m, order), tail))
    decreases |order|
  {
    if order == [] {
      assert AllLines(m, order) + (CRLF + tail) == CRLF + tail;
      BlankLineEnds(tail, end, got);
      assert got + ReadBackOf(m, order) == got;
    } else {
      var name, rest := order[0], order[1..];
      var others := AllLines(m, rest);
      Associative(FieldLines(name, m[name]), others, CRLF + tail);
      OneName(name, m[name], others + (CRLF + tail), end, got);
      ReadBackOneByOne(m, order, got);
      AllNames(m, rest, tail, end, Extended(got, name, m[name]));
    }
  }

  lemma AllOfThem(m: Fields, order: seq<Text>)
    requires IsOrder(m, order)
    ensures map[] + ReadBackOf(m, order) == ReadBack(m)
  {}

  /// Whatever the order they were written in, readable headers come back as Latin-1 made UTF-8, and exactly the bytes
  /// written are consumed.
  lemma WrittenIsReadBack(m: Fields, order: seq<Text>, tail: Text, end: End)
    requires ReadableFields(m) && IsOrder(m, order)
    ensures ReadFields(AllLines(m, order) + CRLF + tail, end, map[]) == Done((ReadBack(m), tail))
  {
    AllNames(m, order, tail, end, map[]);
    Associative(AllLines(m, order), CRLF, tail);
    AllOfThem(m, order);
  }

  lemma AsciiReadsBackUnchanged(m: Fields)
    ensures ReadBack(m) == m <==> AsciiFields(m)
  {
    forall name, i | name in m && 0 <= i < |m[name]|
      ensures ReadBack(m)[name][i] == m[name][i] <==> All(IsAscii, m[name][i])
    {
      Latin1Exact(m[name][i]);
    }
    if AsciiFields(m) {
      forall name | name in m ensures ReadBack(m)[name] == m[name] {}
      assert ReadBack(m) == m;
    }
  }

  lemma OneHeaderLines(m: Fields, name: Text, value: Text)
    requires m == map[name := [value]]
    ensures AllLines(m, [name]) == FieldLine(name, value) && IsOrder(m, [name])
  {
    var none: seq<Text> := [];
    assert [name][1..] == none && [value][1..] == none;
    assert FieldLines(name, [value]) == FieldLine(name, value) + FieldLines(name, none);
    assert AllLines(m, [name]) == FieldLines(name, [value]) + AllLines(m, none);
  }

  /// The two bytes of an e with an acute accent, in a header of the name A.
  const ACCENT: Fields := map[[65] := [[195, 169]]]

  lemma Latin1Accent()
    ensures Latin1([195, 169]) == [195, 131, 194, 169]
  {
    var first: Text, both: Text := [195], [195, 169];
    assert first[..0] == [] && both[..1] == first;
    assert Latin1(first) == [] + [195, 131];
    assert Latin1(both) == Latin1(first) + [194, 169];
  }

  lemma AccentIsReadable()
    ensures ReadableFields(ACCENT) && IsOrder(ACCENT, [[65]])
  {
    var name: Text := [65];
    assert name[..0] == [] && NormalName(name[..0]) == [] && NormalName(name) == [] + [65];
  }

  lemma AccentReadsBack()
    ensures ReadBack(ACCENT) == map[[65] := [[195, 131, 194, 169]]]
  {
    Latin1Accent();
    assert Latin1All([[195, 169]]) == [[195, 131, 194, 169]];
  }

  /// For example: they come back as four, which stand for two other characters.
  lemma AccentIsChanged(tail: Text, end: End)
    ensures ReadFields(AllLines(ACCENT, [[65]]) + CRLF + tail, end, map[])
         == Done((map[[65] := [[195, 131, 194, 169]]], tail))
  {
    AccentIsReadable();
    AccentReadsBack();
    WrittenIsReadBack(ACCENT, [[65]], tail, end);
  }

  // ---------------------------------------------------------------- what any read returns

  lemma {:induction false} Latin1Readable(value: Text)
    requires All(IsFieldContent, value)
    ensures All(IsFieldContent, Latin1(value))
    ensures value == [] ==> Latin1(value) == []
    ensures value != [] ==> Latin1(value) != [] && (IsBlank(Latin1(value)[0]) ==> IsBlank(value[0]))
  {
    if value == [] {
    } else {
      Latin1Readable(value[..|value| - 1]);
    }
  }

  lemma ParsedIsReadable(line: Text)
    requires |line| > 2 && ParsedLine(line).Done?
    ensures ParsedLine(line).value.Some?
    ensures var h := ParsedLine(line).value.value; GoodName(h.name) && Readable(h.value)
  {
    var name, value := ReadIsField(line);
    FieldIsRead(line, name, value);
    NormalNameStable(name);
    NormalNameToken(name);
    Latin1Readable(DropBlanks(value));
  }

  lemma AddStaysReadable(m: Fields, h: Header)
    requires ReadableFields(m) && GoodName(h.name) && Readable(h.value)
    ensures ReadableFields(AddField(m, h.name, h.value))
  {}

  lemma ReadFieldsEnd(input: Text, end: End, m: Fields)
    requires LineLength(input) <= 2 && ReadFields(input, end, m).Done?
    ensures ReadFields(input, end, m).value.0 == m
  {}

  lemma ReadFieldsStep(input: Text, end: End, m: Fields)
    requires LineLength(input) > 2 && ReadFields(input, end, m).Done?
    ensures var n := LineLength(input);
            && ParsedLine(input[..n]).Done? && ParsedLine(input[..n]).value.Some?
            && var h := ParsedLine(input[..n]).value.value;
               ReadFields(input, end, m) == ReadFields(input[n..], end, AddField(m, h.name, h.value))
  {
    assert |input[..LineLength(input)]| > 2;
  }

  lemma {:induction false} AnyReadIsReadable(input: Text, end: End, m: Fields)
    requires ReadableFields(m) && ReadFields(input, end, m).Done?
    ensures ReadableFields(ReadFields(input, end, m).value.0)
    decreases |input|
  {
    var n := LineLength(input);
    if n > 2 {
      ReadFieldsStep(input, end, m);
      ParsedIsReadable(input[..n]);
      var h := ParsedLine(input[..n]).value.value;
      AddStaysReadable(m, h);
      AnyReadIsReadable(input[n..], end, AddField(m, h.name, h.value));
    } else {
      ReadFieldsEnd(input, end, m);
    }
  }

  /// The headers come back unchanged exactly when they are well-formed, for every order and whatever follows;
  /// and then exactly the bytes written are consumed.
  lemma HeadersRoundTripExactly(m: Fields, order: seq<Text>, tail: Text, end: End)
    requires IsOrder(m, order)
    ensures var r := ReadFields(AllLines(m, order) + CRLF + tail, end, map[]);
            && (r.Done? && r.value.0 == m <==> GoodFields(m))
            && (GoodFields(m) ==> r == Done((m, tail)))
  {
    var r := ReadFields(AllLines(m, order) + CRLF + tail, end, map[]);
    if r.Done? && r.value.0 == m {
      AnyReadIsReadable(AllLines(m, order) + CRLF + tail, end, map[]);
    }
    if ReadableFields(m) {
      WrittenIsReadBack(m, order, tail, end);
      AsciiReadsBackUnchanged(m);
    }
  }
}
