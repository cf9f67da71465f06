/** UTF-8, and the lossy conversion of bytes to a string. */
module Utf8 {
  import opened Bytes
  import opened HttpText

  predicate Continues(c: byte) {
    0x80 <= c <= 0xBF
  }

  /// The bytes of a well-formed character that may follow its first byte.
  predicate SecondFits(first: byte, second: byte) {
    match first
    case 0xE0 => 0xA0 <= second <= 0xBF
    case 0xED => 0x80 <= second <= 0x9F
    case 0xF0 => 0x90 <= second <= 0xBF
    case 0xF4 => 0x80 <= second <= 0x8F
    case _ => Continues(second)
  }

  /// How many bytes a character has that begins with this byte; none for a byte that begins no character.
  function Width(first: byte): (n: nat)
    ensures n <= 4
  {
    if first < 0x80 then 1
    else if 0xC2 <= first <= 0xDF then 2
    else if 0xE0 <= first <= 0xEF then 3
    else if 0xF0 <= first <= 0xF4 then 4
    else 0
  }

  /// How many bytes at the beginning of `t` are a character or the beginning of one.
  function Sound(t: Text): (n: nat)
    requires t != []
    ensures n <= |t| && n <= Width(t[0])
  {
    if Width(t[0]) <= 1 then Width(t[0])
    else if |t| == 1 || !SecondFits(t[0], t[1]) then 1
    else if Width(t[0]) == 2 || |t| == 2 || !Continues(t[2]) then 2
    else if Width(t[0]) == 3 || |t| == 3 || !Continues(t[3]) then 3
    else 4
  }

  /// U+FFFD
  const REPLACEMENT: Text := [0xEF, 0xBF, 0xBD]

  /// How many bytes the conversion takes in one step, and what it puts in their place.
  function Step(t: Text): (n: nat)
    requires t != []
    ensures 0 < n <= |t|
  {
    if Sound(t) == 0 then 1 else Sound(t)
  }

  function Put(t: Text): (r: Text)
    requires t != []
    ensures r != []
  {
    if 0 < Sound(t) == Width(t[0]) then t[..Sound(t)] else REPLACEMENT
  }

  /// `from_utf8_lossy`: each longest beginning of a character that is not completed, and each byte that begins none, is
  /// replaced.
  function Lossy(t: Text): (r: Text)
    ensures r == [] <==> t == []
    decreases |t|
  {
    if t == [] then [] else Put(t) + Lossy(t[Step(t)..])
  }

  lemma AllParts(p: byte -> bool, a: Text, b: Text)
    ensures All(p, a + b) <==> All(p, a) && All(p, b)
  {
    assert forall i :: 0 <= i < |a| ==> (a + b)[i] == a[i];
    assert forall i :: 0 <= i < |b| ==> (a + b)[|a| + i] == b[i];
  }

  lemma PutAscii(t: Text)
    requires t != []
    ensures SameAscii(t[..Step(t)], Put(t))
    ensures forall c: byte :: c < 128 && c in Put(t) ==> c in t
  {
    if t[0] >= 128 {
      assert t[..Step(t)][0] >= 128 && Put(t)[0] >= 128;
    }
  }

  /// `b` is ASCII exactly when `a` is, and then they are the same.
  ghost predicate SameAscii(a: Text, b: Text) {
    (All(IsAscii, b) <==> All(IsAscii, a)) && (All(IsAscii, a) ==> b == a)
  }

  lemma SameAsciiJoined(a: Text, b: Text, c: Text, d: Text)
    requires SameAscii(a, b) && SameAscii(c, d)
    ensures SameAscii(a + c, b + d)
  {
    AllParts(IsAscii, a, c);
    AllParts(IsAscii, b, d);
  }

  /// ASCII comes through unchanged, and nothing else becomes ASCII.
  lemma {:induction false} LossyAscii(t: Text)
    ensures SameAscii(t, Lossy(t))
    decreases |t|
  {
    if t == [] {
    } else {
      var k := Step(t);
      LossyAscii(t[k..]);
      PutAscii(t);
      assert t == t[..k] + t[k..];
      SameAsciiJoined(t[..k], Put(t), t[k..], Lossy(t[k..]));
    }
  }

  /// No ASCII byte appears that was not there.
  lemma {:induction false} LossyAddsNoAscii(t: Text, c: byte)
    requires c < 128 && c !in t
    ensures c !in Lossy(t)
    decreases |t|
  {
    if t == [] {
    } else {
      PutAscii(t);
      LossyAddsNoAscii(t[Step(t)..], c);
    }
  }

  /// The conversion gives an ASCII text only for that text.
  lemma LossyIsAscii(t: Text, text: Text)
    requires All(IsAscii, text)
    ensures Lossy(t) == text <==> t == text
  {
    LossyAscii(t);
  }

  lemma LossyDiffers(t: Text, c: byte, text: Text)
    requires c < 128 && c !in t && c in text
    ensures Lossy(t) != text
  {
    LossyAddsNoAscii(t, c);
  }
}
