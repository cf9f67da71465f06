/**
 What normalisation does to a path, piece by piece, told from the bytes: a place is a path such as "/" or "/a/b", and
 every piece between separators stays, goes up, or goes down.  These laws leave room for one function only.
 */
module NormalizeLaws {
  import opened Bytes
  import opened PathNormalize

  // ---------------------------------------------------------------- the laws

  /// The place above: `place` is cut before its last "/", but never to nothing.
  function Above(place: Text): Text {
    if place == [] then [47]
    else if place[|place| - 1] == 47 then (if |place| == 1 then [47] else place[..|place| - 1])
    else Above(place[..|place| - 1])
  }

  lemma {:induction false} AboveIsCut(place: Text, i: nat)
    requires i < |place| && place[i] == 47 && forall k :: i < k < |place| ==> place[k] != 47
    ensures Above(place) == if i == 0 then [47] else place[..i]
  {
    var n := |place| - 1;
    if i == n {
    } else {
      AboveIsCut(place[..n], i);
      assert place[..n][..i] == place[..i];
    }
  }

  /// Where a piece leads from a place: "" and "." stay, ".." goes up unless the place is the root, and any other piece
  /// goes down.
  function Next(place: Text, piece: Text): Option<Text> {
    if piece == [] || piece == [46] then Some(place)
    else if piece == [46, 46] then (if place == [47] then None else Some(Above(place)))
    else if place == [47] then Some([47] + piece)
    else Some(place + [47] + piece)
  }

  /// The place reached before the last piece: nothing before the first "/" is the root.
  function PlaceOf(f: Text -> Option<Text>, p: Text): Option<Text> {
    if p == [] then Some([47]) else f(p)
  }

  ghost predicate Leads(f: Text -> Option<Text>, p: Text, piece: Text) {
    f(p + [47] + piece) == match PlaceOf(f, p) case None => None case Some(place) => Next(place, piece)
  }

  /// Paths that do not begin with "/" are invalid, and behind any other text a piece leads on from where that led.
  ghost predicate Laws(f: Text -> Option<Text>) {
    && (forall p :: p == [] || p[0] != 47 ==> f(p) == None)
    && (forall p, piece :: 47 !in piece ==> Leads(f, p, piece))
  }

  // ---------------------------------------------------------------- normalisation obeys them

  lemma AboveJoined(front: Text, last: Text)
    requires 47 !in last
    ensures Above([47] + front + [47] + last) == [47] + front
  {
    var place := [47] + front + [47] + last;
    assert place[|front| + 1] == 47;
    assert forall k :: |front| + 1 < k < |place| ==> place[k] == last[k - |front| - 2];
    AboveIsCut(place, |front| + 1);
    assert place[..|front| + 1] == [47] + front;
  }

  lemma AboveOne(name: Text)
    requires 47 !in name
    ensures Above([47] + name) == [47]
  {
    var place := [47] + name;
    assert forall k :: 0 < k < |place| ==> place[k] == name[k - 1];
    AboveIsCut(place, 0);
  }

  /// The place above a rendered stack renders the stack without its top.
  lemma AboveRendered(stack: seq<Text>)
    requires Names(stack) && stack != []
    ensures Above(Render(stack)) == Render(stack[..|stack| - 1])
  {
    var n := |stack| - 1;
    assert stack == stack[..n] + [stack[n]];
    if n == 0 {
      assert stack[..0] == [];
      AboveOne(stack[0]);
    } else {
      JoinOneMore(stack[..n], stack[n]);
      assert Render(stack) == [47] + Join(stack[..n]) + [47] + stack[n];
      AboveJoined(Join(stack[..n]), stack[n]);
    }
  }

  lemma RootOnly(stack: seq<Text>)
    requires Names(stack)
    ensures Render(stack) == [47] <==> stack == []
  {
    if stack != [] {
      JoinLast(stack);
    }
  }

  lemma DownRendered(stack: seq<Text>, name: Text)
    requires Names(stack)
    ensures Render(stack + [name]) == if stack == [] then [47] + name else Render(stack) + [47] + name
  {
    if stack == [] {
      assert stack + [name] == [name];
    } else {
      JoinOneMore(stack, name);
    }
  }

  /// What the components of one piece do to the stack: nothing, drop its top, or add a name.
  lemma OnePiece(stack: seq<Text>, piece: Text)
    ensures Skipped(piece) ==> Eval(Read([piece]), stack) == Some(stack)
    ensures Proper(piece) ==> Eval(Read([piece]), stack) == Some(stack + [piece])
    ensures piece == [DOT, DOT] ==>
              Eval(Read([piece]), stack) == if stack == [] then None else Some(stack[..|stack| - 1])
  {
    assert [piece][..0] == [] && Read([]) == [];
    if Skipped(piece) {
      assert Read([piece]) == [];
    } else if piece == [DOT, DOT] {
      assert Read([piece]) == [ParentDir];
    } else {
      assert Read([piece]) == [Normal(piece)];
    }
  }

  ghost predicate Mirrors(top: Option<seq<Text>>, place: Option<Text>) {
    match top
    case None => place == None
    case Some(stack) => Names(stack) && place == Some(Render(stack))
  }

  lemma NextRendered(stack: seq<Text>, piece: Text)
    requires Names(stack) && 47 !in piece
    ensures piece == [] || piece == [46] ==> Mirrors(Some(stack), Next(Render(stack), piece))
    ensures piece == [46, 46] ==>
              Mirrors(if stack == [] then None else Some(stack[..|stack| - 1]), Next(Render(stack), piece))
    ensures piece != [] && piece != [46] && piece != [46, 46] ==>
              Mirrors(Some(stack + [piece]), Next(Render(stack), piece))
  {
    RootOnly(stack);
    if stack != [] {
      AboveRendered(stack);
    }
    DownRendered(stack, piece);
  }

  /// One piece moves the stack as it moves the place.
  lemma PieceLeads(stack: seq<Text>, piece: Text)
    requires Names(stack) && 47 !in piece
    ensures Mirrors(Eval(Read([piece]), stack), Next(Render(stack), piece))
  {
    OnePiece(stack, piece);
    NextRendered(stack, piece);
  }

  /// What a rooted path and one more piece come to.
  lemma OnePieceMore(p: Text, piece: Text)
    requires HasRoot(p) && 47 !in piece
    ensures Leads(Normalized, p, piece)
  {
    ComponentsOfLonger(p, piece);
    NoSlash(piece);
    EvalConcat(Components(p), Read([piece]), []);
    if Normalized(p).Some? {
      ResultNames(p);
      PieceLeads(Eval(Components(p), []).value, piece);
    }
  }

  lemma FirstPiece(piece: Text)
    requires 47 !in piece
    ensures Leads(Normalized, [], piece)
  {
    assert [] + [47] + piece == [SLASH] + piece;
    ComponentsOfRooted(piece);
    NoSlash(piece);
    EvalConcat([RootDir], Read([piece]), []);
    assert Eval([RootDir], []) == Some([]);
    assert Render([]) == [47];
    PieceLeads([], piece);
  }

  lemma NormalizedObeys()
    ensures Laws(Normalized)
  {
    forall p, piece | 47 !in piece ensures Leads(Normalized, p, piece) {
      if p == [] {
        FirstPiece(piece);
      } else if p[0] == 47 {
        OnePieceMore(p, piece);
      } else {
        UnrootedStaysInvalid(p, piece);
      }
    }
  }

  /// And it is the only function that does.
  lemma {:induction false} LawsDetermine(f: Text -> Option<Text>, p: Text)
    requires Laws(f)
    ensures f(p) == Normalized(p)
    decreases |p|
  {
    NormalizedObeys();
    if p == [] || p[0] != 47 {
    } else {
      var i := LastStart(p);
      assert p[0] in p[0..];
      var front, piece := p[..i - 1], p[i..];
      assert p == front + [47] + piece;
      LawsDetermine(f, front);
      assert Leads(f, front, piece) && Leads(Normalized, front, piece);
    }
  }

  // ---------------------------------------------------------------- in particular

  /// Only "/" and a longer place without a "/" at its end are ever reached.
  lemma PlacesReached(p: Text)
    requires Normalized(p).Some?
    ensures var r := Normalized(p).value; r != [] && r[0] == 47 && (|r| > 1 ==> r[|r| - 1] != 47)
  {
    var stack := Eval(Components(p), []).value;
    ResultNames(p);
    if stack != [] {
      JoinEnds(stack);
      assert Render(stack)[|Render(stack)| - 1] == Join(stack)[|Join(stack)| - 1];
    }
  }

  lemma StaysBy(f: Text -> Option<Text>, p: Text, r: Text)
    requires Laws(f) && f(p) == Some(r)
    ensures f(p + [47]) == Some(r) && f(p + [47, 46]) == Some(r)
  {
    assert Leads(f, p, []) && Leads(f, p, [46]);
    assert p + [47] + [] == p + [47] && p + [47] + [46] == p + [47, 46];
  }

  lemma GoesUpBy(f: Text -> Option<Text>, p: Text, r: Text, i: nat)
    requires Laws(f) && f(p) == Some(r)
    requires i < |r| && r[i] == 47 && forall k :: i < k < |r| ==> r[k] != 47
    ensures f(p + [47, 46, 46]) == if r == [47] then None else if i == 0 then Some([47]) else Some(r[..i])
  {
    assert Leads(f, p, [46, 46]);
    assert p + [47] + [46, 46] == p + [47, 46, 46];
    AboveIsCut(r, i);
  }

  lemma GoesDownBy(f: Text -> Option<Text>, p: Text, r: Text, name: Text)
    requires Laws(f) && f(p) == Some(r)
    requires 47 !in name && name != [] && name != [46] && name != [46, 46]
    ensures f(p + [47] + name) == if r == [47] then Some([47] + name) else Some(r + [47] + name)
  {
    assert Leads(f, p, name);
  }

  /// From a path that normalises to `r`: "/" and "/." stay there.
  lemma Stays(p: Text, r: Text)
    requires Normalized(p) == Some(r)
    ensures Normalized(p + [47]) == Some(r) && Normalized(p + [47, 46]) == Some(r)
  {
    NormalizedObeys();
    StaysBy(Normalized, p, r);
  }

  /// "/.." fails at the root, and otherwise cuts `r` before its last "/", which is at `i`; "/" if nothing is left.
  lemma GoesUp(p: Text, r: Text, i: nat)
    requires Normalized(p) == Some(r)
    requires i < |r| && r[i] == 47 && forall k :: i < k < |r| ==> r[k] != 47
    ensures Normalized(p + [47, 46, 46]) ==
            if r == [47] then None else if i == 0 then Some([47]) else Some(r[..i])
  {
    NormalizedObeys();
    GoesUpBy(Normalized, p, r, i);
  }

  /// "/" and a name goes down.
  lemma GoesDown(p: Text, r: Text, name: Text)
    requires Normalized(p) == Some(r)
    requires 47 !in name && name != [] && name != [46] && name != [46, 46]
    ensures Normalized(p + [47] + name) == if r == [47] then Some([47] + name) else Some(r + [47] + name)
  {
    NormalizedObeys();
    GoesDownBy(Normalized, p, r, name);
  }

  lemma UpFromABy(f: Text -> Option<Text>, root: Text, back: Text, above: Text)
    requires Laws(f) && root == [47] && back == [47, 97, 47, 46, 46] && above == [47, 46, 46]
    ensures f(root) == Some(root) && f(back) == Some(root) && f(above) == None
  {
    assert Leads(f, [], []) && [] + [47] + [] == root;
    assert Leads(f, [], [46, 46]) && [] + [47] + [46, 46] == above;
    assert Leads(f, [], [97]) && [] + [47] + [97] == [47] + [97] == [47, 97];
    GoesUpBy(f, [47, 97], [47, 97], 0);
    assert [47, 97] + [47, 46, 46] == back;
  }

  /// For example: "/" is "/", "/a/.." is "/", and "/.." is invalid.
  lemma UpFromA(root: Text, back: Text, above: Text)
    requires root == Ascii("/") && back == Ascii("/a/..") && above == Ascii("/..")
    ensures Normalized(root) == Some(root) && Normalized(back) == Some(root) && Normalized(above) == None
  {
    assert root == [47] && back == [47, 97, 47, 46, 46] && above == [47, 46, 46];
    NormalizedObeys();
    UpFromABy(Normalized, root, back, above);
  }
}
