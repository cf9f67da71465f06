/**
 What the documentation of the router promises, that a request is served by the nearest registered parent of its path,
 and exactly when the code keeps it.
 */
module RouterPromise {
  import opened Bytes
  import opened HttpMethods
  import opened PathNormalize
  import opened NormalPaths
  import opened Router

  /// The methods each registered route has a handler for.
  type Rows = map<Text, set<HttpMethod>>

  /// The route is the path or a parent of it.
  predicate Serves(route: Text, path: Text) {
    && route <= path
    && (route == path || (route != [] && route[|route| - 1] == SLASH) || path[|route|] == SLASH)
  }

  /// The longest of the first `n` beginnings of a path, and the path itself, that fits.
  ghost function Longest(path: Text, n: nat, fits: Text -> bool): (r: Option<nat>)
    requires n <= |path|
    ensures r.Some? ==> r.value <= n && fits(path[..r.value])
  {
    if fits(path[..n]) then Some(n) else if n == 0 then None else Longest(path, n - 1, fits)
  }

  /// What the code does: the longest registered beginning, if it has a handler for the method.
  ghost function Used(rows: Rows, path: Text, verb: HttpMethod): Option<nat> {
    match Longest(path, |path|, route => route in rows)
    case None => None
    case Some(n) => if verb in rows[path[..n]] then Some(n) else None
  }

  /// What is documented: the longest of the routes that serve the path and have a handler for the method.
  ghost function Documented(rows: Rows, path: Text, verb: HttpMethod): Option<nat> {
    Longest(path, |path|, route => route in rows && verb in rows[route] && Serves(route, path))
  }

  ghost predicate Keeps(rows: Rows, path: Text, verb: HttpMethod) {
    Used(rows, path, verb) == Documented(rows, path, verb)
  }

  lemma {:induction false} LongestFits(path: Text, n: nat, fits: Text -> bool)
    requires n <= |path|
    ensures match Longest(path, n, fits)
            case None => forall k: nat :: k <= n ==> !fits(path[..k])
            case Some(m) => m <= n && fits(path[..m]) && forall k: nat :: m < k <= n ==> !fits(path[..k])
  {
    if n == 0 || fits(path[..n]) {
    } else {
      LongestFits(path, n - 1, fits);
    }
  }

  lemma LongestIs(path: Text, m: nat, fits: Text -> bool)
    requires m <= |path| && fits(path[..m]) && forall k: nat :: m < k <= |path| ==> !fits(path[..k])
    ensures Longest(path, |path|, fits) == Some(m)
  {
    LongestFits(path, |path|, fits);
  }

  lemma DocumentedAt(rows: Rows, path: Text, verb: HttpMethod, n: nat)
    requires n <= |path| && path[..n] in rows && verb in rows[path[..n]] && Serves(path[..n], path)
    requires forall k: nat :: n < k <= |path| && path[..k] in rows ==> verb !in rows[path[..k]]
    ensures Documented(rows, path, verb) == Some(n)
  {
    LongestIs(path, n, route => route in rows && verb in rows[route] && Serves(route, path));
  }

  // ---------------------------------------------------------------- one request

  /// The longest registered beginning is there, has a handler for the method, and serves the path.
  ghost predicate NearestServes(rows: Rows, path: Text, verb: HttpMethod) {
    exists n: nat :: n <= |path| && IsNearest(rows, path, n) && verb in rows[path[..n]] && Serves(path[..n], path)
  }

  ghost predicate IsNearest(rows: Rows, path: Text, n: nat)
    requires n <= |path|
  {
    path[..n] in rows && forall k: nat :: n < k <= |path| ==> path[..k] !in rows
  }

  /// It is not there, or has no such handler.
  ghost predicate NearestLacks(rows: Rows, path: Text, verb: HttpMethod) {
    forall n: nat :: n <= |path| && IsNearest(rows, path, n) ==> verb !in rows[path[..n]]
  }

  ghost predicate NoneServes(rows: Rows, path: Text, verb: HttpMethod) {
    forall n: nat :: n <= |path| && path[..n] in rows && verb in rows[path[..n]] ==> !Serves(path[..n], path)
  }

  lemma UsedIs(rows: Rows, path: Text, verb: HttpMethod)
    ensures match Used(rows, path, verb)
            case Some(n) => n <= |path| && IsNearest(rows, path, n) && verb in rows[path[..n]]
            case None => NearestLacks(rows, path, verb)
  {
    LongestFits(path, |path|, route => route in rows);
  }

  lemma DocumentedIs(rows: Rows, path: Text, verb: HttpMethod)
    ensures match Documented(rows, path, verb)
            case Some(n) => n <= |path| && path[..n] in rows && verb in rows[path[..n]] && Serves(path[..n], path)
            case None => NoneServes(rows, path, verb)
  {
    LongestFits(path, |path|, route => route in rows && verb in rows[route] && Serves(route, path));
  }

  /// For every path and method: the promise is kept exactly when the longest registered beginning of the path serves it
  /// and has a handler, or has none or is none and no route that serves the path has one.
  lemma KeepsExactly(rows: Rows, path: Text, verb: HttpMethod)
    ensures Keeps(rows, path, verb) <==>
              || NearestServes(rows, path, verb)
              || (NearestLacks(rows, path, verb) && NoneServes(rows, path, verb))
  {
    UsedIs(rows, path, verb);
    DocumentedIs(rows, path, verb);
    match Used(rows, path, verb)
    case None =>
    case Some(n) =>
      if Serves(path[..n], path) {
        LongestIs(path, n, route => route in rows && verb in rows[route] && Serves(route, path));
        assert NearestServes(rows, path, verb);
      }
      forall k: nat | k <= |path| && IsNearest(rows, path, k) ensures k == n {}
  }

  // ---------------------------------------------------------------- all requests

  /// Every route that begins a normal path ends in a separator, and has every method of the routes it extends.
  ghost predicate Regular(rows: Rows) {
    && (forall route :: route in rows && Open(route) ==> route[|route| - 1] == SLASH)
    && (forall route, longer :: Inherits(rows, route, longer) ==> rows[route] <= rows[longer])
  }

  ghost predicate Inherits(rows: Rows, route: Text, longer: Text) {
    route in rows && longer in rows && route <= longer && Open(route) && Open(longer)
  }

  ghost predicate KeepsAlways(rows: Rows) {
    forall path, verb :: Clean(path) ==> Keeps(rows, path, verb)
  }

  lemma NearestIsOne(rows: Rows, path: Text, n: nat, k: nat)
    requires n <= |path| && k <= |path| && IsNearest(rows, path, n) && IsNearest(rows, path, k)
    ensures n == k
  {}

  /// In a regular table no shorter route has a method that the nearest lacks.
  lemma NoShorterHas(rows: Rows, path: Text, verb: HttpMethod, n: nat, k: nat)
    requires Regular(rows) && [] !in rows && Clean(path)
    requires n <= |path| && IsNearest(rows, path, n) && verb !in rows[path[..n]]
    requires k <= |path| && path[..k] in rows
    ensures verb !in rows[path[..k]]
  {
    assert path[..0] == [];
    PrefixIsOpen(path, n);
    PrefixIsOpen(path, k);
    assert k <= n;
    assert path[..k] <= path[..n];
    assert Inherits(rows, path[..k], path[..n]);
  }

  lemma RegularNearestServes(rows: Rows, path: Text, n: nat)
    requires Regular(rows) && [] !in rows && Clean(path)
    requires n <= |path| && path[..n] in rows
    ensures Serves(path[..n], path)
  {
    assert path[..0] == [];
    PrefixIsOpen(path, n);
  }

  lemma RegularKeeps(rows: Rows, path: Text, verb: HttpMethod)
    requires Regular(rows) && [] !in rows && Clean(path)
    ensures NearestServes(rows, path, verb) || (NearestLacks(rows, path, verb) && NoneServes(rows, path, verb))
  {
    LongestFits(path, |path|, route => route in rows);
    match Longest(path, |path|, route => route in rows)
    case None =>
    case Some(n) =>
      assert IsNearest(rows, path, n);
      RegularNearestServes(rows, path, n);
      if verb !in rows[path[..n]] {
        forall k: nat | k <= |path| && path[..k] in rows
          ensures verb !in rows[path[..k]]
        {
          NoShorterHas(rows, path, verb, n, k);
        }
      }
  }

  /// The registered routes that go on from `route` without a separator.
  ghost predicate Beside(rows: Rows, route: Text, longer: Text) {
    longer in rows && route <= longer && SLASH !in longer[|route|..]
  }

  lemma {:induction false} LongestBeside(rows: Rows, some: set<Text>, route: Text) returns (longest: Text)
    requires some != {} && forall r :: r in some ==> Beside(rows, route, r)
    ensures longest in some && forall r :: r in some ==> |r| <= |longest|
    decreases some
  {
    var r :| r in some;
    if some == {r} {
      longest := r;
    } else {
      var rest := some - {r};
      assert some == rest + {r};
      longest := LongestBeside(rows, rest, route);
      if |r| > |longest| {
        longest := r;
      }
    }
  }

  lemma NearestIsUsed(rows: Rows, path: Text, verb: HttpMethod, route: Text)
    requires route in rows && path == route + [LETTER] && path !in rows
    ensures Used(rows, path, verb) == if verb in rows[route] then Some(|route|) else None
  {
    assert path[..|route|] == route && path[..|path|] == path;
    LongestIs(path, |route|, r => r in rows);
  }

  lemma LetterBreaksOff(route: Text)
    requires route != [] ==> route[|route| - 1] != SLASH
    ensures !Serves(route, route + [LETTER])
  {
    assert (route + [LETTER])[|route|] == LETTER;
  }

  /// A route that begins a normal path and does not end in a separator serves a path it is no parent of.
  lemma OvermatchBreaks(rows: Rows, route: Text) returns (path: Text, verb: HttpMethod, n: nat)
    requires [] !in rows && forall r :: r in rows ==> rows[r] != {}
    requires route in rows && Open(route) && route[|route| - 1] != SLASH
    ensures Clean(path) && route <= path
    ensures n < |path| && Used(rows, path, verb) == Some(n) && !Serves(path[..n], path)
    ensures !Keeps(rows, path, verb)
  {
    var beside := set r | r in rows && Beside(rows, route, r);
    assert Beside(rows, route, route);
    assert route in beside;
    var longest := LongestBeside(rows, beside, route);
    var more := longest[|route|..];
    assert longest == route + more;
    OpenFurther(route, more);
    OpenIsClean(longest);
    path, n := longest + [LETTER], |longest|;
    assert path[|route|..] == more + [LETTER];
    assert path in rows ==> Beside(rows, route, path);
    verb :| verb in rows[longest];
    NearestIsUsed(rows, path, verb, longest);
    assert longest[|longest| - 1] != SLASH by {
      if more != [] {
        assert longest[|longest| - 1] == more[|more| - 1];
      } else {
        assert longest == route;
      }
    }
    LetterBreaksOff(longest);
    assert path[..n] == longest;
    DocumentedIs(rows, path, verb);
  }

  /// A route without a method of a shorter one hides it.
  lemma HidingBreaks(rows: Rows, route: Text, longer: Text, verb: HttpMethod) returns (path: Text)
    requires forall r :: r in rows && Open(r) ==> r[|r| - 1] == SLASH
    requires Inherits(rows, route, longer) && verb in rows[route] && verb !in rows[longer]
    ensures Clean(path) && !Keeps(rows, path, verb)
  {
    path := longer + [LETTER];
    OpenIsClean(longer);
    OpenFurther(longer, [LETTER]);
    assert path[|path| - 1] == LETTER;
    NearestIsUsed(rows, path, verb, longer);
    assert path[..|route|] == route && Serves(route, path);
    DocumentedIs(rows, path, verb);
  }

  /// For every table of routes, each with a handler at least: the promise is kept for all normal paths and all methods
  /// exactly when the table is regular.
  lemma KeepsAlwaysExactly(rows: Rows)
    requires [] !in rows && forall r :: r in rows ==> rows[r] != {}
    ensures KeepsAlways(rows) <==> Regular(rows)
  {
    if Regular(rows) {
      forall path, verb | Clean(path) ensures Keeps(rows, path, verb) {
        RegularKeeps(rows, path, verb);
        KeepsExactly(rows, path, verb);
      }
    }
    if KeepsAlways(rows) {
      forall route | route in rows && Open(route) ensures route[|route| - 1] == SLASH {
        if route[|route| - 1] != SLASH {
          var path, verb, n := OvermatchBreaks(rows, route);
        }
      }
      forall route, longer | Inherits(rows, route, longer) ensures rows[route] <= rows[longer] {
        forall verb | verb in rows[route] ensures verb in rows[longer] {
          if verb !in rows[longer] {
            var path := HidingBreaks(rows, route, longer, verb);
          }
        }
      }
    }
  }

  // ---------------------------------------------------------------- the router

  ghost function RowsOf<H>(router: Router<H>): Rows
    reads router, router.Repr
    requires router.Valid()
  {
    map route | route in router.Routes() :: set verb: HttpMethod | router.Table(route, verb).Some?
  }

  lemma RowsAreFull<H>(router: Router<H>)
    requires router.Valid()
    ensures [] !in RowsOf(router) && forall r :: r in RowsOf(router) ==> RowsOf(router)[r] != {}
  {
    var rows := RowsOf(router);
    assert router.routes.Valid();
    forall r | r in rows ensures rows[r] != {} {
      var handlers := router.routes.Contents()[r];
      assert handlers.Valid() && handlers.HasAction();
      var verb: HttpMethod :| handlers.GetAction(verb).Some?;
      assert router.Table(r, verb).Some?;
      assert verb in rows[r];
    }
  }

  /// The handler the router finds is that of the route used.
  lemma GetPrefixIsUsed<H>(router: Router<H>, path: Text, verb: HttpMethod)
    requires router.Valid()
    ensures match Used(RowsOf(router), path, verb)
            case Some(n) =>
              && n <= |path| && router.GetPrefix(path, verb) == router.Table(path[..n], verb)
              && router.GetPrefix(path, verb).Some?
            case None => router.GetPrefix(path, verb) == None
  {
    var rows := RowsOf(router);
    UsedIs(rows, path, verb);
    if n: nat :| router.LongestRoute(path, n) {
      assert IsNearest(rows, path, n);
      assert router.GetPrefix(path, verb) == router.Table(path[..n], verb);
      match Used(rows, path, verb)
      case Some(k) => NearestIsOne(rows, path, n, k);
      case None =>
    }
  }

  /// For every router: requests for all normal paths are served as documented exactly when every route that begins a
  /// normal path ends in a separator and has every method of the routes it extends.
  lemma ServesAsDocumentedExactly<H>(router: Router<H>)
    requires router.Valid()
    ensures (forall path, verb :: IsNormal(path) ==> Keeps(RowsOf(router), path, verb)) <==> Regular(RowsOf(router))
  {
    RowsAreFull(router);
    KeepsAlwaysExactly(RowsOf(router));
    forall path: Text ensures IsNormal(path) <==> Clean(path) {
      NormalExactly(path);
    }
  }

  /// So a route that is a normal path other than the root always serves some normal path it is no parent of.
  lemma EveryRouteOvermatches<H>(router: Router<H>, route: Text)
    requires router.Valid() && route in router.Routes() && IsNormal(route) && |route| > 1
    ensures exists path, verb :: IsNormal(path) && route <= path && OffDocument(router, path, verb)
  {
    RowsAreFull(router);
    NormalExactly(route);
    PrefixIsOpen(route, |route|);
    assert route[..|route|] == route;
    NormalEndsInName(route);
    var path, verb, n := OvermatchBreaks(RowsOf(router), route);
    NormalExactly(path);
    GetPrefixIsUsed(router, path, verb);
    assert OffDocument(router, path, verb);
  }

  /// A handler is found, that of a route that is no parent of the path.
  ghost predicate OffDocument<H>(router: Router<H>, path: Text, verb: HttpMethod)
    reads router, router.Repr
    requires router.Valid()
  {
    && router.GetPrefix(path, verb).Some?
    && exists n: nat :: n <= |path| && Used(RowsOf(router), path, verb) == Some(n) && !Serves(path[..n], path)
  }

  lemma NormalEndsInName(path: Text)
    requires Clean(path) && |path| > 1
    ensures path[|path| - 1] != SLASH
  {
    var stack := CleanIsRendered(path);
    assert Render([]) == [SLASH];
    JoinEnds(stack);
  }

  // ---------------------------------------------------------------- two small tables

  /// "/a" serves "/ab", of which it is no parent.
  method Neighbour<H>(a: H) returns (router: Router<H>, found: Option<H>)
    ensures router.Valid() && router.Routes() == {Ascii("/a")}
    ensures found == Some(a) == router.GetPrefix(Ascii("/ab"), GET)
    ensures Documented(RowsOf(router), Ascii("/ab"), GET) == None
  {
    router := new Router<H>();
    router.Add(Ascii("/a"), GET, a);
    found := router.GetPrefix(Ascii("/ab"), GET);
    var path, route := Ascii("/ab"), Ascii("/a");
    assert path[..2] == route;
    assert forall k: nat :: k <= |path| && path[..k] in router.Routes() ==> k == 2;
    assert router.LongestRoute(path, 2);
    DocumentedIs(RowsOf(router), path, GET);
  }

  /// With GET for "/a" and POST for "/a/b", GET for "/a/b/c" finds nothing, though "/a" is a parent.
  method Hidden<H>(a: H, b: H) returns (router: Router<H>, found: Option<H>)
    ensures router.Valid() && router.Routes() == {Ascii("/a"), Ascii("/a/b")}
    ensures found == None == router.GetPrefix(Ascii("/a/b/c"), GET)
    ensures Documented(RowsOf(router), Ascii("/a/b/c"), GET) == Some(2)
  {
    router := new Router<H>();
    router.Add(Ascii("/a"), GET, a);
    router.Add(Ascii("/a/b"), POST, b);
    found := router.GetPrefix(Ascii("/a/b/c"), GET);
    assert Ascii("/a") != Ascii("/a/b");
    assert router.Table(Ascii("/a/b"), GET) == None;
    HiddenBy(router);
  }

  lemma HiddenBy<H>(router: Router<H>)
    requires router.Valid() && router.Routes() == {Ascii("/a"), Ascii("/a/b")}
    requires router.Table(Ascii("/a"), GET).Some? && router.Table(Ascii("/a/b"), GET) == None
    ensures router.GetPrefix(Ascii("/a/b/c"), GET) == None
    ensures Documented(RowsOf(router), Ascii("/a/b/c"), GET) == Some(2)
  {
    var path, rows := Ascii("/a/b/c"), RowsOf(router);
    assert path[..2] == Ascii("/a") && path[..4] == Ascii("/a/b");
    assert forall k: nat :: k <= |path| && path[..k] in router.Routes() ==> |path[..k]| == 2 || |path[..k]| == 4;
    assert router.LongestRoute(path, 4);
    assert GET in rows[path[..2]] && GET !in rows[path[..4]];
    assert Serves(path[..2], path);
    DocumentedAt(rows, path, GET, 2);
  }
}
