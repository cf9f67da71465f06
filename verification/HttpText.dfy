/** The bytes of a message: character classes, delimiters, and numbers in decimal. */
module HttpText {
  import opened Bytes

  const TAB: byte := 9
  const LF: byte := 10
  const CR: byte := 13
  const SP: byte := 32
  const PLUS: byte := 43
  const DASH: byte := 45
  const COLON: byte := 58
  const CRLF: Text := [CR, LF]

  // ---------------------------------------------------------------- character classes (RFC 7230 section 3.2.6)

  predicate IsDigit(c: byte) {
    48 <= c <= 57
  }

  predicate IsAlphanumeric(c: byte) {
    IsDigit(c) || 65 <= c <= 90 || 97 <= c <= 122
  }

  predicate IsTokenSymbol(c: byte) {
    // ! # $ % & ' * + - . ^ _ ` | ~
    || c == 33 || 35 <= c <= 39 || c == 42 || c == 43 || c == 45 || c == 46
    || 94 <= c <= 96 || c == 124 || c == 126
  }

  predicate IsTokenChar(c: byte) {
    c < 128 && (IsAlphanumeric(c) || IsTokenSymbol(c))
  }

  predicate IsBlank(c: byte) {
    c == SP || c == TAB
  }

  predicate IsVchar(c: byte) {
    33 <= c <= 126 || c >= 128
  }

  predicate IsFieldContent(c: byte) {
    IsVchar(c) || IsBlank(c)
  }

  ghost predicate All(p: byte -> bool, t: Text) {
    forall i :: 0 <= i < |t| ==> p(t[i])
  }

  /// A byte pushed on a string as the character of that number, in UTF-8.
  function Utf8(c: byte): Text {
    if c < 128 then [c] else [(192 + c as int / 64) as byte, (128 + c as int % 64) as byte]
  }

  function Latin1(t: Text): Text {
    if t == [] then [] else Latin1(t[..|t| - 1]) + Utf8(t[|t| - 1])
  }

  predicate IsAscii(c: byte) {
    c < 128
  }

  /// Bytes survive being read as Latin-1 and written as UTF-8 exactly when they are ASCII.
  lemma {:induction false} Latin1Exact(t: Text)
    ensures |Latin1(t)| >= |t|
    ensures Latin1(t) == t <==> All(IsAscii, t)
    ensures |Latin1(t)| == |t| <==> All(IsAscii, t)
  {
    if t == [] {
    } else {
      var n := |t| - 1;
      Latin1Exact(t[..n]);
      assert t == t[..n] + [t[n]];
      if All(IsAscii, t) {
        assert All(IsAscii, t[..n]);
      } else if IsAscii(t[n]) {
        assert !All(IsAscii, t[..n]);
      }
    }
  }

  // ---------------------------------------------------------------- delimiters

  lemma SplitAt(t: Text, n: nat)
    requires n < |t|
    ensures t == t[..n] + [t[n]] + t[n + 1..]
  {}

  lemma Halves<T>(a: seq<T>, b: seq<T>)
    ensures (a + b)[..|a|] == a && (a + b)[|a|..] == b
  {}

  lemma Associative<T>(a: seq<T>, b: seq<T>, c: seq<T>)
    ensures a + b + c == a + (b + c)
  {}

  /// The number of bytes up to and including the first `d`, or all of them.
  function UntilLength(input: Text, d: byte): (n: nat)
    ensures n <= |input|
    ensures d !in input[..n] || (n > 0 && input[n - 1] == d && d !in input[..n - 1])
    ensures d !in input[..n] ==> n == |input|
  {
    if input == [] then 0
    else if input[0] == d then 1
    else
      var n := 1 + UntilLength(input[1..], d);
      assert input[..n] == [input[0]] + input[1..][..n - 1];
      assert input[n - 1] == d ==> input[..n - 1] == [input[0]] + input[1..][..n - 2];
      n
  }

  /// `read_until`
  function Until(input: Text, d: byte): Text {
    input[..UntilLength(input, d)]
  }

  function AfterUntil(input: Text, d: byte): Text {
    input[UntilLength(input, d)..]
  }

  lemma {:induction false} UntilFound(front: Text, d: byte, rest: Text)
    requires d !in front
    ensures Until(front + [d] + rest, d) == front + [d]
    ensures AfterUntil(front + [d] + rest, d) == rest
  {
    var input := front + [d] + rest;
    if front == [] {
    } else {
      UntilFound(front[1..], d, rest);
      assert input[1..] == front[1..] + [d] + rest;
      assert UntilLength(front[1..] + [d] + rest, d) == |front|;
    }
  }

  /// The bytes read end with the first delimiter, or they are all there are.
  lemma UntilSplits(input: Text, d: byte)
    ensures var chunk, rest := Until(input, d), AfterUntil(input, d);
            if d in chunk then
              && chunk[|chunk| - 1] == d && d !in chunk[..|chunk| - 1]
              && input == chunk[..|chunk| - 1] + [d] + rest
            else chunk == input && rest == []
  {
    var n := UntilLength(input, d);
    if d in Until(input, d) {
      SplitAt(input, n - 1);
      assert input[..n][..n - 1] == input[..n - 1];
    }
  }

  // ---------------------------------------------------------------- numbers

  function Digit(n: nat): byte
    requires n < 10
  {
    (48 + n) as byte
  }

  /// `to_string` of an unsigned number
  function Decimal(n: nat): (t: Text)
    ensures t != []
  {
    if n < 10 then [Digit(n)] else Decimal(n / 10) + [Digit(n % 10)]
  }

  function DigitsValue(t: Text): nat
    requires forall i :: 0 <= i < |t| ==> IsDigit(t[i])
  {
    if t == [] then 0
    else
      assert IsDigit(t[|t| - 1]);
      10 * DigitsValue(t[..|t| - 1]) + (t[|t| - 1] as int - 48)
  }

  predicate IsNumber(t: Text) {
    t != [] && forall i :: 0 <= i < |t| ==> IsDigit(t[i])
  }

  /// `from_str` of an unsigned number below `limit`: digits, optionally after a plus sign.
  function ParseUnsigned(t: Text, limit: nat): Option<nat> {
    var digits := if t != [] && t[0] == PLUS then t[1..] else t;
    if IsNumber(digits) && DigitsValue(digits) < limit then Some(DigitsValue(digits)) else None
  }

  lemma {:induction false} DecimalDigits(n: nat)
    ensures IsNumber(Decimal(n)) && DigitsValue(Decimal(n)) == n
  {
    if n < 10 {
    } else {
      DecimalDigits(n / 10);
      assert Decimal(n)[..|Decimal(n)| - 1] == Decimal(n / 10);
    }
  }

  /// Printing a number and parsing it gives it back, as long as it fits.
  lemma DecimalRoundTrip(n: nat, limit: nat)
    ensures ParseUnsigned(Decimal(n), limit) == if n < limit then Some(n) else None
  {
    DecimalDigits(n);
  }

  lemma {:induction false} DecimalLength(n: nat)
    ensures |Decimal(n)| == 3 <==> 100 <= n < 1000
    ensures |Decimal(n)| == 2 <==> 10 <= n < 100
    ensures |Decimal(n)| == 1 <==> n < 10
  {
    if n < 10 {
    } else {
      DecimalLength(n / 10);
    }
  }
}
