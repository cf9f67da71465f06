/** What the lossy conversion keeps: exactly the encodings of characters; and what it always gives. */
module Utf8Exact {
  import opened Bytes
  import opened HttpText
  import opened Utf8

  /// The numbers that are characters (Unicode scalar values)
  predicate IsScalar(c: nat) {
    c < 0xD800 || 0xE000 <= c <= 0x10FFFF
  }

  /// UTF-8 (RFC 3629 section 3)
  function Encode(c: nat): (t: Text)
    requires IsScalar(c)
    ensures 0 < |t| <= 4
  {
    if c < 0x80 then [c as byte]
    else if c < 0x800 then [(0xC0 + c / 64) as byte, Six(c)]
    else if c < 0x10000 then [(0xE0 + c / 64 / 64) as byte, Six(c / 64), Six(c)]
    else [(0xF0 + c / 64 / 64 / 64) as byte, Six(c / 64 / 64), Six(c / 64), Six(c)]
  }

  /// A byte that carries the last six bits of a number on
  function Six(n: nat): byte {
    (0x80 + n % 64) as byte
  }

  ghost predicate Scalars(cs: seq<nat>) {
    forall i :: 0 <= i < |cs| ==> IsScalar(cs[i])
  }

  function Encoded(cs: seq<nat>): Text
    requires forall i :: 0 <= i < |cs| ==> IsScalar(cs[i])
  {
    if cs == [] then [] else Encode(cs[0]) + Encoded(cs[1..])
  }

  lemma SoundEncoding(c: nat, rest: Text)
    requires IsScalar(c)
    ensures var t := Encode(c) + rest; Sound(t) == Width(t[0]) == |Encode(c)|
  {}

  lemma KeptOne(c: nat, rest: Text)
    requires IsScalar(c)
    ensures Lossy(Encode(c) + rest) == Encode(c) + Lossy(rest)
  {
    var t := Encode(c) + rest;
    SoundEncoding(c, rest);
    Halves(Encode(c), rest);
  }

  /// Every text of characters is kept.
  lemma {:induction false} EncodedIsKept(cs: seq<nat>)
    requires Scalars(cs)
    ensures Lossy(Encoded(cs)) == Encoded(cs)
  {
    if cs == [] {
    } else {
      KeptOne(cs[0], Encoded(cs[1..]));
      EncodedIsKept(cs[1..]);
    }
  }

  lemma DecodeOne(t: Text) returns (c: nat)
    requires t != [] && 0 < Sound(t) == Width(t[0])
    ensures IsScalar(c) && Encode(c) == t[..Sound(t)]
  {
    var n := Sound(t);
    if n == 1 {
      c := t[0] as nat;
    } else if n == 2 {
      c := DecodeTwo(t[0], t[1]);
    } else if n == 3 {
      c := DecodeThree(t[0], t[1], t[2]);
    } else {
      c := DecodeFour(t[0], t[1], t[2], t[3]);
    }
  }

  lemma SixMore(high: nat, low: byte)
    requires 0x80 <= low <= 0xBF
    ensures var c := high * 64 + (low as nat - 0x80); c / 64 == high && Six(c) == low
  {}

  lemma DecodeTwo(a: byte, b: byte) returns (c: nat)
    requires 0xC2 <= a <= 0xDF && 0x80 <= b <= 0xBF
    ensures IsScalar(c) && Encode(c) == [a, b]
  {
    SixMore(a as nat - 0xC0, b);
    c := (a as nat - 0xC0) * 64 + (b as nat - 0x80);
  }

  lemma DecodeThree(a: byte, b: byte, d: byte) returns (c: nat)
    requires 0xE0 <= a <= 0xEF && SecondFits(a, b) && 0x80 <= b <= 0xBF && 0x80 <= d <= 0xBF
    ensures IsScalar(c) && Encode(c) == [a, b, d]
  {
    SixMore(a as nat - 0xE0, b);
    var high := (a as nat - 0xE0) * 64 + (b as nat - 0x80);
    SixMore(high, d);
    c := high * 64 + (d as nat - 0x80);
  }

  lemma DecodeFour(a: byte, b: byte, d: byte, e: byte) returns (c: nat)
    requires 0xF0 <= a <= 0xF4 && SecondFits(a, b) && 0x80 <= b <= 0xBF && 0x80 <= d <= 0xBF && 0x80 <= e <= 0xBF
    ensures IsScalar(c) && Encode(c) == [a, b, d, e]
  {
    SixMore(a as nat - 0xF0, b);
    var high := (a as nat - 0xF0) * 64 + (b as nat - 0x80);
    SixMore(high, d);
    var higher := high * 64 + (d as nat - 0x80);
    SixMore(higher, e);
    c := higher * 64 + (e as nat - 0x80);
  }

  lemma PutIsCharacter(t: Text) returns (c: nat)
    requires t != []
    ensures IsScalar(c) && Put(t) == Encode(c)
  {
    if 0 < Sound(t) == Width(t[0]) {
      c := DecodeOne(t);
    } else {
      c := 0xFFFD;
    }
  }

  /// Whatever the bytes, the conversion gives a text of characters.
  lemma {:induction false} LossyIsText(t: Text) returns (cs: seq<nat>)
    ensures Scalars(cs) && Lossy(t) == Encoded(cs)
    decreases |t|
  {
    if t == [] {
      cs := [];
    } else {
      var c := PutIsCharacter(t);
      var rest := LossyIsText(t[Step(t)..]);
      cs := [c] + rest;
    }
  }

  /// So bytes come through unchanged exactly when they are a text of characters.
  lemma KeptExactly(t: Text)
    ensures Lossy(t) == t <==> exists cs :: Scalars(cs) && t == Encoded(cs)
  {
    if Lossy(t) == t {
      var cs := LossyIsText(t);
    }
    if cs :| Scalars(cs) && t == Encoded(cs) {
      EncodedIsKept(cs);
    }
  }

  /// For example: a character cut short is replaced once, and bytes that begin no character once each.
  lemma CutShort(rest: Text)
    ensures Lossy([0xE2, 0x82, 0x41] + rest) == [0xEF, 0xBF, 0xBD] + ([0x41] + Lossy(rest))
    ensures Lossy([0xFF, 0x80] + rest) == [0xEF, 0xBF, 0xBD] + ([0xEF, 0xBF, 0xBD] + Lossy(rest))
  {
    var cut, none := [0xE2, 0x82, 0x41] + rest, [0xFF, 0x80] + rest;
    assert Sound(cut) == 2 && cut[2..] == [0x41] + rest;
    KeptOne(0x41, rest);
    assert Sound(none) == 0 && none[1..] == [0x80] + rest && ([0x80] + rest)[1..] == rest;
  }

  lemma {:induction false} EncodedMore(cs: seq<nat>, c: nat)
    requires Scalars(cs) && IsScalar(c)
    ensures Encoded(cs + [c]) == Encoded(cs) + Encode(c)
  {
    if cs == [] {
      assert Encoded([c]) == Encode(c) + Encoded([]);
    } else {
      EncodedMore(cs[1..], c);
      assert (cs + [c])[1..] == cs[1..] + [c];
      Associative(Encode(cs[0]), Encoded(cs[1..]), Encode(c));
    }
  }

  /// The numbers of some bytes
  function Numbers(t: Text): (cs: seq<nat>)
    ensures |cs| == |t| && forall i :: 0 <= i < |cs| ==> cs[i] == t[i] as nat
  {
    seq(|t|, i requires 0 <= i < |t| => t[i] as nat)
  }

  /// A header value is read as the characters of its bytes' numbers.
  lemma {:induction false} Latin1Encodes(t: Text)
    ensures Latin1(t) == Encoded(Numbers(t))
  {
    if t == [] {
    } else {
      var front, last := t[..|t| - 1], t[|t| - 1];
      Latin1Encodes(front);
      EncodedMore(Numbers(front), last as nat);
      assert Numbers(t) == Numbers(front) + [last as nat];
    }
  }
}
