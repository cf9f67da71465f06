/** Header names told byte by byte: which letters are upper-cased, and what that means for a message. */
module HeaderNames {
  import opened Bytes
  import opened HttpText
  import opened HttpReader
  import opened HttpHeaders
  import opened HttpStatus
  import opened HttpBody

  /// No ASCII letter or digit
  predicate Silent(c: byte) {
    !(48 <= c <= 57) && !(65 <= c <= 90) && !(97 <= c <= 122)
  }

  /// A word begins at `j`, behind nothing, a space or a dash, and no letter or digit comes between there and `i`.
  ghost predicate WordFrom(name: Text, j: nat, i: nat) {
    && j <= i <= |name| && (j == 0 || name[j - 1] == 32 || name[j - 1] == 45)
    && forall k :: j <= k < i ==> Silent(name[k])
  }

  ghost predicate FirstOfWord(name: Text, i: nat) {
    exists j: nat :: WordFrom(name, j, i)
  }

  lemma {:induction false} WordStartsExactly(name: Text, i: nat)
    requires i <= |name|
    ensures WordStarts(name[..i]) <==> FirstOfWord(name, i)
  {
    if i == 0 {
      assert WordFrom(name, 0, 0);
    } else {
      var h: nat := i - 1;
      WordStartsExactly(name, h);
      var t := name[..i];
      assert t[..h] == name[..h] && t[h] == name[h];
      if j: nat :| WordFrom(name, j, h) {
        assert Silent(name[h]) ==> WordFrom(name, j, i);
      }
      if name[h] == 32 || name[h] == 45 {
        assert WordFrom(name, i, i);
      }
      if j: nat :| WordFrom(name, j, i) {
        assert j < i ==> WordFrom(name, j, h);
      }
    }
  }

  lemma SameWords(name: Text, n: nat, i: nat)
    requires i < n <= |name|
    ensures name[..n][i] == name[i] && (FirstOfWord(name[..n], i) <==> FirstOfWord(name, i))
  {
    WordStartsExactly(name, i);
    WordStartsExactly(name[..n], i);
    assert name[..n][..i] == name[..i];
  }

  /// For every name and place: a lower-case letter that is the first letter or digit of a word becomes its capital, and
  /// every other byte stays.
  lemma {:induction false} NormalNameAt(name: Text, i: nat)
    requires i < |name|
    ensures |NormalName(name)| == |name|
    ensures NormalName(name)[i] ==
            if 97 <= name[i] <= 122 && FirstOfWord(name, i) then name[i] - 32 else name[i]
  {
    var n := |name| - 1;
    if i == n {
      WordStartsExactly(name, i);
    } else {
      NormalNameAt(name[..n], i);
      SameWords(name, n, i);
    }
  }

  lemma TwoWords(name: Text)
    requires name == Ascii("content-length")
    ensures NormalName(name) == Ascii("Content-Length")
  {
    var normal := Ascii("Content-Length");
    assert name[0] == 99 && name[7] == 45 && name[8] == 108;
    assert WordFrom(name, 0, 0) && WordFrom(name, 8, 8);
    forall i: nat | i < |name| ensures NormalName(name)[i] == normal[i] {
      NormalNameAt(name, i);
      if j: nat :| WordFrom(name, j, i) {
        LettersAreNotSilent(name, j, i);
      }
    }
  }

  lemma LettersAreNotSilent(name: Text, j: nat, i: nat)
    requires name == Ascii("content-length") && WordFrom(name, j, i) && i < |name|
    ensures i == 0 || i == 8
  {
    assert name[7] == 45;
    assert forall k :: 0 <= k < |name| && k != 7 ==> 97 <= name[k] <= 122;
    assert j < i ==> Silent(name[j]);
  }

  lemma LengthIsField(line: Text, name: Text, value: Text)
    requires line == Ascii("content-length: 5\r\n") && name == Ascii("content-length") && value == [32, 53]
    ensures |line| > 2 && IsField(HttpHeaders.Content(line), name, value)
  {
    assert forall k :: 0 <= k < |name| ==> name[k] == 45 || 97 <= name[k] <= 122;
    assert HttpHeaders.Content(line) == name + [58] + value;
  }

  /// For example: a line "content-length: 5" is read under the name "Content-Length".
  lemma LowerCaseLengthIsRead(line: Text, name: Text, value: Text, five: Text)
    requires line == Ascii("content-length: 5\r\n")
    requires name == Ascii("content-length") && value == [32, 53] && five == [53]
    ensures ParsedLine(line) == Done(Some(Header(Ascii("Content-Length"), five)))
  {
    LengthIsField(line, name, value);
    TwoWords(name);
    FieldIsRead(line, name, value);
    FiveIsRead(value, five);
  }

  /// A length alone frames a body of that many bytes.
  lemma LengthFrames(m: Fields, value: Text, n: nat, isMime: Text -> bool)
    requires m == map[Ascii("Content-Length") := [value]] && ParseUnsigned(value, WORD) == Some(n) && n > 0
    ensures FrameOf(m, isMime) == Done(Some(Frame(None, n)))
  {
    NamesDiffer();
    FrameExactly(m, isMime);
    assert AnnouncesLength(m, n) && AnnouncesType(m, None, isMime) && PlainEncoding(m);
  }

  /// And the length read above frames a body of five bytes.
  lemma FiveBytesFramed(m: Fields, five: Text, isMime: Text -> bool)
    requires five == Ascii("5") && m == map[Ascii("Content-Length") := [five]]
    ensures FrameOf(m, isMime) == Done(Some(Frame(None, 5)))
  {
    FiveParses(five);
    LengthFrames(m, five, 5, isMime);
  }

  lemma FiveIsRead(value: Text, five: Text)
    requires value == [32, 53] && five == [53]
    ensures DropBlanks(value) == five && Latin1(five) == five
  {
    assert value[1..] == five;
    assert five[..0] == [];
  }

  lemma FiveParses(five: Text)
    requires five == [53]
    ensures ParseUnsigned(five, WORD) == Some(5)
  {
    assert five[..0] == [] && DigitsValue(five) == 5;
  }

  lemma NamesDiffer()
    ensures Ascii("Content-Length") != Ascii("Transfer-Encoding") && Ascii("Content-Length") != Ascii("Content-Type")
  {
    assert |Ascii("Content-Length")| == 14 && |Ascii("Transfer-Encoding")| == 17 && |Ascii("Content-Type")| == 12;
  }
}
