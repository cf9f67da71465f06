/**
 Path normalisation: a loop over the components of a Unix path that rebuilds a text buffer with `push` and `parent`,
 proved equal to evaluating the components on a stack.
 */
module PathNormalize {
  import opened Bytes

  const SLASH: byte := 47
  const DOT: byte := 46

  datatype Component = RootDir | CurDir | ParentDir | Normal(name: Text)

  // ---------------------------------------------------------------- components of a path

  predicate HasRoot(p: Text) {
    p != [] && p[0] == SLASH
  }

  /// Where the text after the last separator starts.
  function LastStart(p: Text): (i: nat)
    ensures i <= |p| && (i > 0 ==> p[i - 1] == SLASH) && SLASH !in p[i..]
  {
    if p == [] then 0
    else if p[|p| - 1] == SLASH then |p|
    else
      var i := LastStart(p[..|p| - 1]);
      assert p[i..] == p[..|p| - 1][i..] + [p[|p| - 1]];
      i
  }

  function LastPiece(p: Text): Text {
    p[LastStart(p)..]
  }

  /// The text before the last separator, if there is one.
  function DropLast(p: Text): (r: Text)
    ensures p != [] ==> |r| < |p|
  {
    var i := LastStart(p);
    if i == 0 then [] else p[..i - 1]
  }

  /// The texts between separators.
  function Pieces(p: Text): (ps: seq<Text>)
    ensures ps != []
    decreases |p|
  {
    if LastStart(p) == 0 then [p] else Pieces(DropLast(p)) + [LastPiece(p)]
  }

  /// A piece that `Components` does not report.
  predicate Skipped(piece: Text) {
    piece == [] || piece == [DOT]
  }

  function Read(pieces: seq<Text>): (cs: seq<Component>)
    ensures forall i :: 0 <= i < |cs| ==>
              cs[i].ParentDir? || (cs[i].Normal? && cs[i].name in pieces && Proper(cs[i].name))
  {
    if pieces == [] then []
    else
      var last := pieces[|pieces| - 1];
      var front := Read(pieces[..|pieces| - 1]);
      if Skipped(last) then front
      else if last == [DOT, DOT] then front + [ParentDir]
      else front + [Normal(last)]
  }

  /// A name a component can have.
  predicate Proper(name: Text) {
    !Skipped(name) && name != [DOT, DOT]
  }

  /// `Path::components` on Unix.
  function Components(p: Text): seq<Component> {
    if HasRoot(p) then [RootDir] + Read(Pieces(p))
    else (if Pieces(p)[0] == [DOT] then [CurDir] else []) + Read(Pieces(p))
  }

  // ---------------------------------------------------------------- the buffer

  /// `PathBuf::push`
  function Push(buffer: Text, path: Text): Text {
    if HasRoot(path) then path
    else if buffer != [] && buffer[|buffer| - 1] != SLASH then buffer + [SLASH] + path
    else buffer + path
  }

  /// Drops trailing pieces that are no components.
  function TrimRight(body: Text): Text
    decreases |body|
  {
    if body != [] && Skipped(LastPiece(body)) then TrimRight(DropLast(body)) else body
  }

  /// `Path::parent` of a rooted path
  function Parent(p: Text): Option<Text>
    requires HasRoot(p)
  {
    var body := TrimRight(p[1..]);
    if body == [] then None else Some([SLASH] + TrimRight(DropLast(body)))
  }

  // ---------------------------------------------------------------- the specification: a stack of names

  function Eval(cs: seq<Component>, stack: seq<Text>): Option<seq<Text>>
    decreases |cs|
  {
    if cs == [] then Some(stack)
    else
      match cs[0]
      case Normal(name) => Eval(cs[1..], stack + [name])
      case ParentDir => if stack == [] then None else Eval(cs[1..], stack[..|stack| - 1])
      case _ => Eval(cs[1..], stack)
  }

  /// The names, separated.
  function Join(stack: seq<Text>): Text {
    if stack == [] then []
    else if |stack| == 1 then stack[0]
    else Join(stack[..|stack| - 1]) + [SLASH] + stack[|stack| - 1]
  }

  function Render(stack: seq<Text>): Text {
    [SLASH] + Join(stack)
  }

  function Normalized(p: Text): Option<Text> {
    if !HasRoot(p) then None
    else
      match Eval(Components(p), [])
      case None => None
      case Some(stack) => Some(Render(stack))
  }

  predicate Names(stack: seq<Text>) {
    forall i :: 0 <= i < |stack| ==> Proper(stack[i]) && SLASH !in stack[i]
  }

  // ---------------------------------------------------------------- splitting

  lemma NoSlashFrom(p: Text, i: nat)
    requires i <= |p| && SLASH !in p[i..]
    ensures forall k :: i <= k < |p| ==> p[k] != SLASH
  {
    assert forall k :: i <= k < |p| ==> p[i..][k - i] == p[k];
  }

  lemma LastStartUnique(p: Text, i: nat)
    requires i <= |p| && (i > 0 ==> p[i - 1] == SLASH) && SLASH !in p[i..]
    ensures LastStart(p) == i
  {
    var j := LastStart(p);
    NoSlashFrom(p, i);
    NoSlashFrom(p, j);
  }

  lemma SplitLast(front: Text, last: Text)
    requires SLASH !in last
    ensures var p := front + [SLASH] + last;
            LastPiece(p) == last && DropLast(p) == front && LastStart(p) == |front| + 1
  {
    var p := front + [SLASH] + last;
    assert p[|front| + 1..] == last;
    LastStartUnique(p, |front| + 1);
  }

  lemma NoSlash(p: Text)
    requires SLASH !in p
    ensures LastStart(p) == 0 && LastPiece(p) == p && DropLast(p) == [] && Pieces(p) == [p]
  {
    assert p[0..] == p;
    LastStartUnique(p, 0);
  }

  lemma {:induction false} PiecesConcat(p: Text, q: Text)
    ensures Pieces(p + [SLASH] + q) == Pieces(p) + Pieces(q)
    decreases |q|
  {
    var i := LastStart(q);
    if i == 0 {
      assert q[0..] == q;
      SplitLast(p, q);
      NoSlash(q);
    } else {
      var last, front := LastPiece(q), DropLast(q);
      assert q == front + [SLASH] + last;
      assert p + [SLASH] + q == (p + [SLASH] + front) + [SLASH] + last;
      SplitLast(p + [SLASH] + front, last);
      PiecesConcat(p, front);
    }
  }

  lemma {:induction false} PiecesHaveNoSlash(p: Text)
    ensures forall i :: 0 <= i < |Pieces(p)| ==> SLASH !in Pieces(p)[i]
    decreases |p|
  {
    if LastStart(p) == 0 {
      assert p[0..] == p;
    } else {
      PiecesHaveNoSlash(DropLast(p));
    }
  }

  lemma {:induction false} ReadConcat(ps: seq<Text>, qs: seq<Text>)
    ensures Read(ps + qs) == Read(ps) + Read(qs)
  {
    if qs == [] {
      assert ps + qs == ps;
    } else {
      ReadConcat(ps, qs[..|qs| - 1]);
      assert (ps + qs)[..|ps + qs| - 1] == ps + qs[..|qs| - 1];
    }
  }

  lemma ReadNames(p: Text)
    ensures forall i :: 0 <= i < |Read(Pieces(p))| && Read(Pieces(p))[i].Normal? ==>
              SLASH !in Read(Pieces(p))[i].name
  {
    PiecesHaveNoSlash(p);
  }

  // ---------------------------------------------------------------- the buffer follows the stack

  lemma JoinLast(stack: seq<Text>)
    requires stack != [] && Names(stack)
    ensures Join(stack) != []
    ensures LastPiece(Join(stack)) == stack[|stack| - 1]
    ensures DropLast(Join(stack)) == Join(stack[..|stack| - 1])
  {
    var n := |stack| - 1;
    if n == 0 {
      NoSlash(stack[0]);
      assert stack[..0] == [];
    } else {
      SplitLast(Join(stack[..n]), stack[n]);
    }
  }

  lemma JoinOneMore(front: seq<Text>, last: Text)
    requires front != []
    ensures Join(front + [last]) == Join(front) + [SLASH] + last
  {
    assert (front + [last])[..|front|] == front;
  }

  lemma JoinEnds(stack: seq<Text>)
    requires stack != [] && Names(stack)
    ensures Join(stack) != [] && Join(stack)[|Join(stack)| - 1] != SLASH
  {
    JoinLast(stack);
    var body := Join(stack);
    assert stack[|stack| - 1] == body[LastStart(body)..];
    NoSlashFrom(body, LastStart(body));
  }

  lemma PushOnName(body: Text, name: Text)
    requires body != [] && body[|body| - 1] != SLASH && !HasRoot(name)
    ensures Push([SLASH] + body, name) == [SLASH] + (body + [SLASH] + name)
  {
    var buffer := [SLASH] + body;
    assert buffer[|buffer| - 1] == body[|body| - 1];
    assert buffer + [SLASH] + name == [SLASH] + (body + [SLASH] + name);
  }

  lemma PushRendered(stack: seq<Text>, name: Text)
    requires Names(stack) && Proper(name) && SLASH !in name
    ensures Push(Render(stack), name) == Render(stack + [name])
  {
    if stack == [] {
      assert Render(stack) == [SLASH] && stack + [name] == [name];
    } else {
      JoinOneMore(stack, name);
      JoinEnds(stack);
      PushOnName(Join(stack), name);
    }
  }

  lemma ParentRendered(stack: seq<Text>)
    requires Names(stack)
    ensures Parent(Render(stack)) == if stack == [] then None else Some(Render(stack[..|stack| - 1]))
  {
    assert Render(stack)[1..] == Join(stack);
    if stack != [] {
      JoinLast(stack);
      var rest := stack[..|stack| - 1];
      if rest != [] {
        JoinLast(rest);
      }
    }
  }

  lemma {:induction false} EvalConcat(cs: seq<Component>, ds: seq<Component>, stack: seq<Text>)
    ensures Eval(cs + ds, stack) ==
            match Eval(cs, stack)
            case None => None
            case Some(top) => Eval(ds, top)
    decreases |cs|
  {
    if cs == [] {
      assert cs + ds == ds;
    } else {
      assert (cs + ds)[1..] == cs[1..] + ds;
      match cs[0]
      case Normal(name) => EvalConcat(cs[1..], ds, stack + [name]);
      case ParentDir =>
        if stack != [] {
          EvalConcat(cs[1..], ds, stack[..|stack| - 1]);
        }
      case _ => EvalConcat(cs[1..], ds, stack);
    }
  }

  /// After `i` components the buffer renders the stack.
  ghost predicate Follows(cs: seq<Component>, i: nat, stack: seq<Text>, buffer: Text) {
    && i <= |cs| && Names(stack) && Eval(cs[..i], []) == Some(stack)
    && (if i == 0 then buffer == [] && stack == [] else buffer == Render(stack))
  }

  lemma EvalOneMore(cs: seq<Component>, i: nat)
    requires i < |cs|
    ensures Eval(cs[..i + 1], []) ==
            match Eval(cs[..i], [])
            case None => None
            case Some(top) => Eval([cs[i]], top)
  {
    assert cs[..i + 1] == cs[..i] + [cs[i]];
    EvalConcat(cs[..i], [cs[i]], []);
  }

  lemma FollowsName(cs: seq<Component>, i: nat, stack: seq<Text>, buffer: Text, name: Text)
    requires 0 < i < |cs| && Follows(cs, i, stack, buffer)
    requires cs[i] == Normal(name) && Proper(name) && SLASH !in name
    ensures Follows(cs, i + 1, stack + [name], Push(buffer, name))
  {
    EvalOneMore(cs, i);
    PushRendered(stack, name);
    assert Eval([Normal(name)], stack) == Some(stack + [name]);
  }

  lemma StaysInvalid(cs: seq<Component>, i: nat)
    requires i <= |cs| && Eval(cs[..i], []) == None
    ensures Eval(cs, []) == None
  {
    EvalConcat(cs[..i], cs[i..], []);
    assert cs == cs[..i] + cs[i..];
  }

  lemma FollowsParent(cs: seq<Component>, i: nat, stack: seq<Text>, buffer: Text)
    requires 0 < i < |cs| && Follows(cs, i, stack, buffer) && cs[i] == ParentDir && stack != []
    ensures Follows(cs, i + 1, stack[..|stack| - 1], Render(stack[..|stack| - 1]))
  {
    EvalOneMore(cs, i);
    assert Eval([ParentDir], stack) == Some(stack[..|stack| - 1]);
  }

  /// At the root, going up makes the whole path invalid.
  lemma AboveRoot(cs: seq<Component>, i: nat)
    requires i < |cs| && Eval(cs[..i], []) == Some([]) && cs[i] == ParentDir
    ensures Eval(cs, []) == None
  {
    EvalOneMore(cs, i);
    StaysInvalid(cs, i + 1);
  }

  lemma FollowsRoot(cs: seq<Component>)
    requires cs != [] && cs[0] == RootDir
    ensures Follows(cs, 0, [], []) && Follows(cs, 1, [], Push([], [SLASH]))
  {
    assert cs[..0] == [] && cs[..1] == [RootDir];
    assert Eval([RootDir], []) == Some([]);
  }

  /// `normalize`: the text buffer computes what the stack computes.
  method Normalize(p: Text) returns (r: Option<Text>)
    ensures r == Normalized(p)
  {
    var normalized: Text := [];
    if !HasRoot(p) {
      return None;
    }
    var components := Components(p);
    ReadNames(p);
    FollowsRoot(components);
    ghost var stack: seq<Text> := [];
    for i := 0 to |components|
      invariant Follows(components, i, stack, normalized)
    {
      assert if i == 0 then components[i] == RootDir else components[i] == Read(Pieces(p))[i - 1];
      match components[i] {
        case RootDir =>
          normalized := Push(normalized, [SLASH]);
        case CurDir =>
        case ParentDir =>
          ParentRendered(stack);
          match Parent(normalized) {
            case None =>
              AboveRoot(components, i);
              return None;
            case Some(parent) =>
              FollowsParent(components, i, stack, normalized);
              normalized := Push([], parent);
          }
          stack := stack[..|stack| - 1];
        case Normal(name) =>
          FollowsName(components, i, stack, normalized, name);
          normalized := Push(normalized, name);
          stack := stack + [name];
      }
    }
    assert components[..|components|] == components;
    r := Some(normalized);
  }

  // ---------------------------------------------------------------- when it succeeds

  function Rise(c: Component): int {
    match c
    case Normal(_) => 1
    case ParentDir => -1
    case _ => 0
  }

  /// How many names are left, below zero when there are more `..` than names.
  function Depth(cs: seq<Component>): int {
    if cs == [] then 0
    else Depth(cs[..|cs| - 1]) + Rise(cs[|cs| - 1])
  }

  ghost predicate NeverAboveRoot(cs: seq<Component>) {
    forall k :: 0 <= k <= |cs| ==> Depth(cs[..k]) >= 0
  }

  lemma DepthStep(front: seq<Component>, last: Component)
    ensures Depth(front + [last]) == Depth(front) + Rise(last)
    ensures NeverAboveRoot(front + [last]) <==> NeverAboveRoot(front) && Depth(front + [last]) >= 0
  {
    var cs := front + [last];
    assert cs[..|front|] == front;
    assert forall k :: 0 <= k <= |front| ==> front[..k] == cs[..k];
    assert cs[..|front| + 1] == cs;
  }

  lemma EvalStep(stack: seq<Text>, c: Component)
    ensures Eval([c], stack).Some? <==> |stack| + Rise(c) >= 0
    ensures Eval([c], stack).Some? ==> |Eval([c], stack).value| == |stack| + Rise(c)
  {
    match c
    case Normal(name) => assert Eval([c], stack) == Some(stack + [name]);
    case ParentDir =>
    case _ =>
  }

  lemma {:induction false} EvalDepth(cs: seq<Component>)
    ensures Eval(cs, []).Some? <==> NeverAboveRoot(cs)
    ensures Eval(cs, []).Some? ==> |Eval(cs, []).value| == Depth(cs)
  {
    if cs == [] {
      assert cs[..0] == [];
    } else {
      var front, last := cs[..|cs| - 1], cs[|cs| - 1];
      assert cs == front + [last];
      EvalDepth(front);
      EvalConcat(front, [last], []);
      DepthStep(front, last);
      if Eval(front, []).Some? {
        EvalStep(Eval(front, []).value, last);
      }
    }
  }

  /// Normalisation succeeds exactly for rooted paths whose components never climb above the root.
  lemma SucceedsExactly(p: Text)
    ensures Normalized(p).Some? <==> HasRoot(p) && NeverAboveRoot(Components(p))
  {
    EvalDepth(Components(p));
  }

  // ---------------------------------------------------------------- idempotence

  function Normals(stack: seq<Text>): seq<Component> {
    seq(|stack|, i requires 0 <= i < |stack| => Normal(stack[i]))
  }

  lemma {:induction false} EvalNames(cs: seq<Component>, stack: seq<Text>)
    requires Names(stack)
    requires forall i :: 0 <= i < |cs| && cs[i].Normal? ==> Proper(cs[i].name) && SLASH !in cs[i].name
    ensures Eval(cs, stack).Some? ==> Names(Eval(cs, stack).value)
    decreases |cs|
  {
    if cs == [] {
    } else {
      match cs[0]
      case Normal(name) => EvalNames(cs[1..], stack + [name]);
      case ParentDir =>
        if stack != [] {
          EvalNames(cs[1..], stack[..|stack| - 1]);
        }
      case _ => EvalNames(cs[1..], stack);
    }
  }

  lemma ResultNames(p: Text)
    requires HasRoot(p) && Eval(Components(p), []).Some?
    ensures Names(Eval(Components(p), []).value)
  {
    ReadNames(p);
    EvalNames(Components(p), []);
  }

  lemma OneMorePiece(front: Text, last: Text, pieces: seq<Text>)
    requires SLASH !in last && Pieces(front) == pieces
    ensures Pieces(front + [SLASH] + last) == pieces + [last]
  {
    NoSlash(last);
    PiecesConcat(front, last);
  }

  lemma {:induction false} PiecesOfJoin(front: seq<Text>, last: Text)
    requires Names(front) && SLASH !in last
    ensures Pieces(Join(front + [last])) == front + [last]
  {
    if front == [] {
      NoSlash(last);
      assert front + [last] == [last];
    } else {
      var n := |front| - 1;
      PiecesOfJoin(front[..n], front[n]);
      assert front == front[..n] + [front[n]];
      JoinOneMore(front, last);
      OneMorePiece(Join(front), last, front);
    }
  }

  lemma PiecesOfNames(stack: seq<Text>)
    requires Names(stack) && stack != []
    ensures Pieces(Join(stack)) == stack
  {
    var n := |stack| - 1;
    PiecesOfJoin(stack[..n], stack[n]);
    assert stack == stack[..n] + [stack[n]];
  }

  lemma {:induction false} ReadOfNames(stack: seq<Text>)
    requires Names(stack)
    ensures Read(stack) == Normals(stack)
  {
    if stack == [] {
    } else {
      var n := |stack| - 1;
      ReadOfNames(stack[..n]);
      assert Normals(stack) == Normals(stack[..n]) + [Normal(stack[n])];
    }
  }

  lemma PiecesOfRooted(body: Text)
    ensures Pieces([SLASH] + body) == [[]] + Pieces(body)
  {
    assert [SLASH] + body == [] + [SLASH] + body;
    PiecesConcat([], body);
    NoSlash([]);
  }

  lemma ReadSkipped(piece: Text)
    requires Skipped(piece)
    ensures Read([piece]) == []
  {
    assert [piece][..0] == [];
  }

  lemma ReadEmptyFirst(pieces: seq<Text>)
    ensures Read([[]] + pieces) == Read(pieces)
  {
    ReadConcat([[]], pieces);
    ReadSkipped([]);
  }

  lemma ReadOfJoin(stack: seq<Text>)
    requires Names(stack)
    ensures Read(Pieces(Join(stack))) == Normals(stack)
  {
    if stack == [] {
      NoSlash([]);
      ReadSkipped([]);
    } else {
      PiecesOfNames(stack);
      ReadOfNames(stack);
    }
  }

  lemma ComponentsOfRooted(body: Text)
    ensures Components([SLASH] + body) == [RootDir] + Read(Pieces(body))
  {
    PiecesOfRooted(body);
    ReadEmptyFirst(Pieces(body));
  }

  lemma ComponentsOfRendered(stack: seq<Text>)
    requires Names(stack)
    ensures Components(Render(stack)) == [RootDir] + Normals(stack)
  {
    ComponentsOfRooted(Join(stack));
    ReadOfJoin(stack);
  }

  lemma {:induction false} EvalNormals(stack: seq<Text>, names: seq<Text>)
    ensures Eval(Normals(names), stack) == Some(stack + names)
    decreases |names|
  {
    if names == [] {
      assert stack + names == stack;
    } else {
      assert Normals(names)[1..] == Normals(names[1..]);
      EvalNormals(stack + [names[0]], names[1..]);
      assert stack + [names[0]] + names[1..] == stack + names;
    }
  }

  /// The result is normal: only names below the root, and normalising it again changes nothing.
  lemma ResultIsNormal(p: Text)
    requires Normalized(p).Some?
    ensures var r := Normalized(p).value;
            && Normalized(r) == Some(r)
            && exists stack :: Names(stack) && r == Render(stack) && Components(r) == [RootDir] + Normals(stack)
  {
    var stack := Eval(Components(p), []).value;
    ResultNames(p);
    ComponentsOfRendered(stack);
    EvalNormals([], stack);
    EvalConcat([RootDir], Normals(stack), []);
    assert [] + stack == stack;
    assert Eval([RootDir], []) == Some([]);
  }

  // ---------------------------------------------------------------- normalising piecewise

  lemma ComponentsOfLonger(p: Text, q: Text)
    requires HasRoot(p)
    ensures Components(p + [SLASH] + q) == Components(p) + Read(Pieces(q))
  {
    var longer := p + [SLASH] + q;
    PiecesConcat(p, q);
    ReadConcat(Pieces(p), Pieces(q));
    assert longer[0] == p[0];
    assert HasRoot(longer);
    assert [RootDir] + (Read(Pieces(p)) + Read(Pieces(q))) == ([RootDir] + Read(Pieces(p))) + Read(Pieces(q));
  }

  /// A path may be normalised up to any separator first.
  lemma NormalizePrefixFirst(p: Text, q: Text)
    requires HasRoot(p)
    ensures Normalized(p + [SLASH] + q) ==
            match Normalized(p)
            case None => None
            case Some(r) => Normalized(r + [SLASH] + q)
  {
    ComponentsOfLonger(p, q);
    EvalConcat(Components(p), Read(Pieces(q)), []);
    if Normalized(p).Some? {
      var r := Normalized(p).value;
      ResultIsNormal(p);
      ComponentsOfLonger(r, q);
      EvalConcat(Components(r), Read(Pieces(q)), []);
      var stack := Eval(Components(p), []).value;
      ResultNames(p);
      ComponentsOfRendered(stack);
      EvalNormals([], stack);
      EvalConcat([RootDir], Normals(stack), []);
      assert [] + stack == stack;
      assert Eval([RootDir], []) == Some([]);
    }
  }

  /// A path that is not rooted stays invalid whatever is appended, unless it is empty.
  lemma UnrootedStaysInvalid(p: Text, q: Text)
    requires !HasRoot(p) && p != []
    ensures Normalized(p + [SLASH] + q) == None
  {
    assert (p + [SLASH] + q)[0] == p[0];
  }

  /// What normalising up to a separator first gives.
  function PiecewiseNormalized(p: Text, q: Text): Option<Text> {
    match Normalized(p)
    case None => None
    case Some(r) => Normalized(r + [SLASH] + q)
  }

  /// For every two texts: normalising up to a separator first changes nothing, but where the first text is empty, which
  /// no path is, and the second is valid below the root.
  lemma PiecewiseExactly(p: Text, q: Text)
    ensures Normalized(p + [SLASH] + q) == PiecewiseNormalized(p, q) <==>
              p != [] || !NeverAboveRoot(Components([SLASH] + q))
  {
    if HasRoot(p) {
      NormalizePrefixFirst(p, q);
    } else if p != [] {
      UnrootedStaysInvalid(p, q);
    } else {
      assert p + [SLASH] + q == [SLASH] + q;
      SucceedsExactly([SLASH] + q);
    }
  }

  lemma EmptyPrefixFails()
    ensures PiecewiseNormalized([], []) == None && Normalized([] + [SLASH] + []) == Some([SLASH])
  {
    var root: Text := [];
    assert [] + [SLASH] + root == [SLASH] == [SLASH] + root;
    ComponentsOfRooted(root);
    NoSlash(root);
    ReadSkipped(root);
    assert Components([SLASH]) == [RootDir];
    assert Eval([RootDir], []) == Some([]);
    assert Render([]) == [SLASH];
  }
}
