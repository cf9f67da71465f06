/** How reading a whole header block can end: exactly when it succeeds, panics, or never ends. */
module HeaderFailures {
  import opened Bytes
  import opened HttpText
  import opened HttpReader
  import opened HttpHeaders
  import opened HttpMessages
  import opened HttpConversation

  /// The input cut behind every CRLF, without what comes after the last.
  function Lines(input: Text): (lines: seq<Text>)
    ensures forall i :: 0 <= i < |lines| ==> |lines[i]| >= 2
    decreases |input|
  {
    var n := LineLength(input);
    if n == 0 then [] else [input[..n]] + Lines(input[n..])
  }

  ghost predicate IsFieldLine(line: Text) {
    |line| > 2 && exists name, value :: IsField(HttpHeaders.Content(line), name, value)
  }

  predicate TokensOnly(line: Text) {
    |line| > 2 && forall i :: 0 <= i < |line| - 2 ==> IsTokenChar(line[i])
  }

  /// The first `k` lines are header fields.
  ghost predicate FieldsBefore(lines: seq<Text>, k: nat) {
    k <= |lines| && forall i :: 0 <= i < k ==> IsFieldLine(lines[i])
  }

  ghost predicate BlankAfterFields(lines: seq<Text>, k: nat) {
    k < |lines| && FieldsBefore(lines, k) && |lines[k]| == 2
  }

  ghost predicate TokensAfterFields(lines: seq<Text>, k: nat) {
    k < |lines| && FieldsBefore(lines, k) && TokensOnly(lines[k])
  }

  lemma TokensPanic(line: Text)
    requires |line| > 2
    ensures TokensOnly(line) <==> ParsedLine(line).Panics?
    ensures !ParsedLine(line).Hangs?
  {
    PanicsExactly(line);
    assert forall i :: 0 <= i < |line| - 2 ==> HttpHeaders.Content(line)[i] == line[i];
  }

  /// What the first line does.
  lemma FirstLine(line: Text)
    requires |line| > 2
    ensures IsFieldLine(line) <==> ParsedLine(line).Done?
    ensures TokensOnly(line) <==> ParsedLine(line).Panics?
    ensures !ParsedLine(line).Hangs? && (ParsedLine(line).Done? ==> ParsedLine(line).value.Some?)
  {
    TokensPanic(line);
    AcceptsExactly(line);
  }

  lemma Shift(lines: seq<Text>, k: nat)
    requires lines != [] && IsFieldLine(lines[0])
    ensures FieldsBefore(lines, k + 1) <==> FieldsBefore(lines[1..], k)
    ensures BlankAfterFields(lines, k + 1) <==> BlankAfterFields(lines[1..], k)
    ensures TokensAfterFields(lines, k + 1) <==> TokensAfterFields(lines[1..], k)
    ensures !BlankAfterFields(lines, 0)
  {
    assert forall i :: 0 < i < |lines| ==> lines[i] == lines[1..][i - 1];
  }

  lemma FieldsNotTokens(line: Text)
    requires IsFieldLine(line)
    ensures !TokensOnly(line) && |line| > 2
  {
    FirstLine(line);
  }

  lemma OneFieldOn(input: Text, end: End, m: Fields)
    requires LineLength(input) > 2 && IsFieldLine(input[..LineLength(input)])
    ensures var n := LineLength(input);
            exists m' :: ReadFields(input, end, m) == ReadFields(input[n..], end, m')
  {
    var n := LineLength(input);
    FirstLine(input[..n]);
    var h := ParsedLine(input[..n]).value.value;
    assert ReadFields(input, end, m) == ReadFields(input[n..], end, AddField(m, h.name, h.value));
  }

  /// The reader meets a blank line exactly when only fields come before it.
  lemma {:induction false} BlockEndsExactly(input: Text, end: End, m: Fields)
    ensures ReadFields(input, end, m).Done? <==> exists k: nat :: BlankAfterFields(Lines(input), k)
    decreases |input|
  {
    var n, lines := LineLength(input), Lines(input);
    if n > 2 && IsFieldLine(input[..n]) {
      OneFieldOn(input, end, m);
      var m' :| ReadFields(input, end, m) == ReadFields(input[n..], end, m');
      BlockEndsExactly(input[n..], end, m');
      assert lines[1..] == Lines(input[n..]);
      forall k: nat ensures BlankAfterFields(lines, k + 1) <==> BlankAfterFields(lines[1..], k) {
        Shift(lines, k);
      }
      if k: nat :| BlankAfterFields(lines, k) {
        Shift(lines, 0);
        assert BlankAfterFields(lines[1..], k - 1);
      }
    } else if n > 2 {
      FirstLine(input[..n]);
      assert forall k: nat :: FieldsBefore(lines, k) && k > 0 ==> IsFieldLine(lines[0]);
    } else if n == 2 {
      assert BlankAfterFields(lines, 0);
    }
  }

  /// The reader panics exactly when the first line that is no field has token characters only.
  lemma {:induction false} BlockPanicsExactly(input: Text, end: End, m: Fields)
    ensures ReadFields(input, end, m).Panics? <==> exists k: nat :: TokensAfterFields(Lines(input), k)
    decreases |input|
  {
    var n, lines := LineLength(input), Lines(input);
    if n > 2 && IsFieldLine(input[..n]) {
      OneFieldOn(input, end, m);
      var m' :| ReadFields(input, end, m) == ReadFields(input[n..], end, m');
      BlockPanicsExactly(input[n..], end, m');
      assert lines[1..] == Lines(input[n..]);
      FieldsNotTokens(lines[0]);
      forall k: nat ensures TokensAfterFields(lines, k + 1) <==> TokensAfterFields(lines[1..], k) {
        Shift(lines, k);
      }
      if k: nat :| TokensAfterFields(lines, k) {
        assert TokensAfterFields(lines[1..], k - 1);
      }
    } else if n > 2 {
      FirstLine(input[..n]);
      assert TokensAfterFields(lines, 0) <==> TokensOnly(lines[0]);
      assert forall k: nat :: FieldsBefore(lines, k) && k > 0 ==> IsFieldLine(lines[0]);
    } else if n == 2 {
      assert forall k: nat :: FieldsBefore(lines, k) && k > 0 ==> IsFieldLine(lines[0]);
    }
  }

  /// The reader runs out of lines exactly when all there are, are fields; then it meets the fault of the stream, or
  /// reads nothing for ever.
  lemma {:induction false} BlockHangsExactly(input: Text, end: End, m: Fields)
    ensures ReadFields(input, end, m).Hangs? <==> end.Eof? && FieldsBefore(Lines(input), |Lines(input)|)
    ensures FieldsBefore(Lines(input), |Lines(input)|) ==> ReadFields(input, end, m) == NoLine(end)
    decreases |input|
  {
    var n, lines := LineLength(input), Lines(input);
    if n > 2 && IsFieldLine(input[..n]) {
      OneFieldOn(input, end, m);
      var m' :| ReadFields(input, end, m) == ReadFields(input[n..], end, m');
      BlockHangsExactly(input[n..], end, m');
      assert lines[1..] == Lines(input[n..]);
      Shift(lines, |lines| - 1);
    } else if n > 2 {
      FirstLine(input[..n]);
      assert !IsFieldLine(lines[0]);
    } else if n == 2 {
      assert !IsFieldLine(lines[0]);
    }
  }

  // ---------------------------------------------------------------- requests that do it

  const PING_LINE: Text := RequestLine(PING.verb, PING.uri, PING.version)

  lemma PingLineIsRead(rest: Text, end: End)
    ensures ReadRequestLine(PING_LINE + rest, end) == Done((PING, rest))
  {
    PingLineIsGood();
    RequestLineRoundTripsExactly(PING.verb, PING.uri, PING.version, rest, end);
  }

  lemma AfterStartLine(line: StartLine, rest: Text, end: End, isMime: Text -> bool)
    ensures var r := RequestAfter(Done((line, rest)), end, isMime);
            && (ReadFields(rest, end, map[]).Panics? ==> r == Panics)
            && (ReadFields(rest, end, map[]) == NoLine(end) ==> r == NoLine(end))
  {}

  lemma AfterPingLine(rest: Text, end: End, isMime: Text -> bool)
    ensures ReadFields(rest, end, map[]).Panics? ==> ReadRequest(PING_LINE + rest, end, isMime) == Panics
    ensures ReadFields(rest, end, map[]) == NoLine(end) ==> ReadRequest(PING_LINE + rest, end, isMime) == NoLine(end)
  {
    PingLineIsRead(rest, end);
    AfterStartLine(PING, rest, end, isMime);
  }

  /// A request with the line "X" among its headers brings down the thread that reads it, whatever follows.
  lemma OneWordPanics(tail: Text, end: End, isMime: Text -> bool)
    ensures ReadRequest(PING_LINE + ([88] + CRLF + tail), end, isMime) == Panics
    ensures ReplyTo(ReadRequest(PING_LINE + ([88] + CRLF + tail), end, isMime), true) == Crashed
  {
    var input := [88] + CRLF + tail;
    assert input[..3] == [88] + CRLF;
    LineLengthUnique(input, 1);
    assert Lines(input)[0] == input[..3];
    assert TokensAfterFields(Lines(input), 0);
    BlockPanicsExactly(input, end, map[]);
    AfterPingLine(input, end, isMime);
  }

  /// A request that ends with its first line is read for ever from a stream that ends there, and fails on one that
  /// fails.
  lemma NoHeadersHangs(end: End, isMime: Text -> bool)
    ensures ReadRequest(PING_LINE + [], end, isMime) == NoLine(end)
  {
    BlockHangsExactly([], end, map[]);
    AfterPingLine([], end, isMime);
  }
}
