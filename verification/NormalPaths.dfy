/** Which paths normalisation leaves as they are, told by their pieces. */
module NormalPaths {
  import opened Bytes
  import opened PathNormalize

  predicate IsNormal(p: Text) {
    Normalized(p) == Some(p)
  }

  ghost predicate AllProper(pieces: seq<Text>) {
    forall i :: 0 <= i < |pieces| ==> Proper(pieces[i])
  }

  /// The root, or rooted and all pieces are names
  ghost predicate Clean(p: Text) {
    HasRoot(p) && (|p| == 1 || AllProper(Pieces(p[1..])))
  }

  lemma {:induction false} JoinOfPieces(body: Text)
    ensures Join(Pieces(body)) == body
    decreases |body|
  {
    var i := LastStart(body);
    if i == 0 {
    } else {
      var front := Pieces(DropLast(body));
      JoinOfPieces(DropLast(body));
      JoinOneMore(front, LastPiece(body));
      assert body == DropLast(body) + [SLASH] + LastPiece(body);
    }
  }

  lemma RenderedIsNormal(stack: seq<Text>)
    requires Names(stack)
    ensures IsNormal(Render(stack))
  {
    ComponentsOfRendered(stack);
    EvalNormals([], stack);
    EvalConcat([RootDir], Normals(stack), []);
    assert [] + stack == stack;
    assert Eval([RootDir], []) == Some([]);
  }

  lemma NormalIsRendered(p: Text) returns (stack: seq<Text>)
    requires IsNormal(p)
    ensures Names(stack) && p == Render(stack)
  {
    ResultIsNormal(p);
    stack :| Names(stack) && p == Render(stack) && Components(p) == [RootDir] + Normals(stack);
  }

  lemma NamesAreProper(stack: seq<Text>)
    requires Names(stack)
    ensures AllProper(stack)
  {}

  lemma RenderedIsClean(stack: seq<Text>)
    requires Names(stack)
    ensures Clean(Render(stack))
  {
    var p := Render(stack);
    assert p[1..] == Join(stack) && HasRoot(p);
    if stack == [] {
      assert |p| == 1;
    } else {
      PiecesOfNames(stack);
      NamesAreProper(stack);
    }
  }

  lemma CleanIsRendered(p: Text) returns (stack: seq<Text>)
    requires Clean(p)
    ensures Names(stack) && p == Render(stack)
  {
    var body := p[1..];
    assert p == [SLASH] + body;
    if body == [] {
      stack := [];
    } else {
      stack := Pieces(body);
      PiecesHaveNoSlash(body);
      JoinOfPieces(body);
    }
  }

  /// Normal paths are the root and the rooted ones all of whose pieces are names.
  lemma NormalExactly(p: Text)
    ensures IsNormal(p) <==> Clean(p)
  {
    if IsNormal(p) {
      var stack := NormalIsRendered(p);
      RenderedIsClean(stack);
    }
    if Clean(p) {
      var stack := CleanIsRendered(p);
      RenderedIsNormal(stack);
    }
  }

  // ---------------------------------------------------------------- beginnings of normal paths

  /// The pieces before the last
  function FrontPieces(body: Text): seq<Text> {
    Pieces(body)[..|Pieces(body)| - 1]
  }

  /// Rooted, and all pieces but the last, which may go on, are names
  ghost predicate Open(route: Text) {
    HasRoot(route) && AllProper(FrontPieces(route[1..]))
  }

  lemma CutLast(body: Text) returns (front: Text, last: Text)
    requires SLASH in body
    ensures body == front + [SLASH] + last && SLASH !in last
  {
    var i := LastStart(body);
    assert body[0..] == body;
    front, last := body[..i - 1], body[i..];
  }

  lemma PiecesOfJoined(front: Text, last: Text)
    requires SLASH !in last
    ensures Pieces(front + [SLASH] + last) == Pieces(front) + [last]
    ensures FrontPieces(front + [SLASH] + last) == Pieces(front)
  {
    OneMorePiece(front, last, Pieces(front));
  }

  ghost predicate Extends(body: Text, more: Text) {
    && Pieces(body + more) == FrontPieces(body) + [Pieces(body)[|Pieces(body)| - 1] + more]
    && FrontPieces(body + more) == FrontPieces(body)
  }

  lemma OnePieceExtended(body: Text, more: Text)
    requires SLASH !in body && SLASH !in more
    ensures Extends(body, more)
  {
    NoSlash(body);
    NoSlash(body + more);
  }

  lemma LastPieceExtended(body: Text, front: Text, last: Text, more: Text)
    requires body == front + [SLASH] + last && SLASH !in last && SLASH !in more
    ensures Extends(body, more)
  {
    PiecesOfJoined(front, last);
    PiecesOfJoined(front, last + more);
    Regroup(front, last, more);
  }

  lemma Regroup(front: Text, last: Text, more: Text)
    ensures front + [SLASH] + last + more == front + [SLASH] + (last + more)
  {}

  /// Bytes without a separator go to the last piece.
  lemma PiecesExtended(body: Text, more: Text)
    requires SLASH !in more
    ensures Extends(body, more)
  {
    if SLASH !in body {
      OnePieceExtended(body, more);
    } else {
      var front, last := CutLast(body);
      LastPieceExtended(body, front, last, more);
    }
  }

  /// A byte no name is spoilt by
  const LETTER: byte := 120

  lemma LetterIsProper(piece: Text)
    ensures Proper(piece + [LETTER])
  {
    assert (piece + [LETTER])[|piece|] == LETTER;
  }

  lemma AllProperMore(front: seq<Text>, last: Text)
    requires Proper(last)
    ensures AllProper(front + [last]) <==> AllProper(front)
  {
    assert forall i :: 0 <= i < |front| ==> (front + [last])[i] == front[i];
  }

  /// A path goes on from there: with a letter behind it, it is normal.
  lemma OpenExactly(route: Text)
    ensures Open(route) <==> IsNormal(route + [LETTER])
  {
    NormalExactly(route + [LETTER]);
    OpenIsClean(route);
  }

  lemma OpenIsClean(route: Text)
    ensures Open(route) <==> Clean(route + [LETTER])
  {
    if route != [] {
      var body := route[1..];
      assert (route + [LETTER])[1..] == body + [LETTER];
      PiecesExtended(body, [LETTER]);
      var last := Pieces(body)[|Pieces(body)| - 1];
      LetterIsProper(last);
      AllProperMore(FrontPieces(body), last + [LETTER]);
    }
  }

  /// Where a path can go on, it can after more bytes without a separator.
  lemma OpenFurther(route: Text, more: Text)
    requires Open(route) && SLASH !in more
    ensures Open(route + more)
  {
    assert (route + more)[1..] == route[1..] + more;
    PiecesExtended(route[1..], more);
  }

  lemma FirstPiecesProper(body: Text, front: Text, rest: Text)
    requires body == front + [SLASH] + rest && AllProper(Pieces(body))
    ensures AllProper(Pieces(front))
  {
    PiecesConcat(front, rest);
    assert forall k :: 0 <= k < |Pieces(front)| ==> (Pieces(front) + Pieces(rest))[k] == Pieces(front)[k];
  }

  lemma RestOfBody(body: Text, before: Text, front: Text, last: Text)
    requires before <= body && before == front + [SLASH] + last
    ensures |front| < |body| && body == front + [SLASH] + body[|front| + 1..]
  {
    assert body[..|front|] == front && body[|front|] == SLASH;
  }

  lemma CutPrefixProper(body: Text, before: Text, front: Text, last: Text)
    requires before <= body && before == front + [SLASH] + last && SLASH !in last
    requires AllProper(Pieces(body))
    ensures AllProper(FrontPieces(before))
  {
    RestOfBody(body, before, front, last);
    PiecesOfJoined(front, last);
    FirstPiecesProper(body, front, body[|front| + 1..]);
  }

  lemma PrefixFrontProper(body: Text, before: Text)
    requires before <= body && AllProper(Pieces(body))
    ensures AllProper(FrontPieces(before))
  {
    if SLASH !in before {
      NoSlash(before);
    } else {
      var front, last := CutLast(before);
      CutPrefixProper(body, before, front, last);
    }
  }

  /// A normal path can go on from any place in it.
  lemma PrefixIsOpen(path: Text, n: nat)
    requires Clean(path) && 0 < n <= |path|
    ensures Open(path[..n])
  {
    var body := path[1..];
    assert path[..n][1..] == body[..n - 1];
    if |path| == 1 {
      NoSlash([]);
    } else {
      PrefixFrontProper(body, body[..n - 1]);
    }
  }
}
