/** The router: a table from routes and methods to handlers kept in the trie, and the dispatch of a request. */
module Router {
  import opened Bytes
  import opened HttpMethods
  import opened PathNormalize
  import Trie

  /// The handlers of one route, by method.
  datatype MethodHandlers<H> = MethodHandlers(actions: seq<Option<H>>)
  {
    predicate Valid() {
      |actions| == METHODS
    }

    /// A route is registered with a handler.
    ghost predicate HasAction()
      requires Valid()
    {
      exists verb: HttpMethod :: GetAction(verb).Some?
    }

    function GetAction(verb: HttpMethod): Option<H>
      requires Valid()
    {
      actions[verb.Index()]
    }

    function SetAction(verb: HttpMethod, action: H): (r: MethodHandlers<H>)
      requires Valid()
      ensures r.Valid()
      ensures forall m: HttpMethod :: r.GetAction(m) == if m == verb then Some(action) else GetAction(m)
    {
      forall m: HttpMethod ensures m.Index() == verb.Index() ==> m == verb {
        IndexInjective(m, verb);
      }
      MethodHandlers(actions[verb.Index() := Some(action)])
    }
  }

  function NoHandlers<H>(): (r: MethodHandlers<H>)
    ensures r.Valid() && forall m: HttpMethod :: r.GetAction(m) == None
  {
    MethodHandlers(seq(METHODS, _ => None))
  }

  class Router<H> {
    const routes: Trie.Trie<MethodHandlers<H>>
    ghost var Repr: set<object>

    ghost predicate Valid()
      reads this, Repr
      ensures Valid() ==> this in Repr
    {
      && this in Repr && routes in Repr && routes.Repr <= Repr && this !in routes.Repr && routes.Valid()
      && forall route :: route in routes.Contents() ==>
           routes.Contents()[route].Valid() && routes.Contents()[route].HasAction()
    }

    /// The registered routes.
    ghost function Routes(): set<Text>
      reads this, Repr
      requires Valid()
    {
      routes.Contents().Keys
    }

    /// The table the router stands for.
    ghost function Table(route: Text, verb: HttpMethod): Option<H>
      reads this, Repr
      requires Valid()
    {
      if route in Routes() then routes.Contents()[route].GetAction(verb) else None
    }

    /// `n` bytes of `path` are the longest registered route it starts with.
    ghost predicate LongestRoute(path: Text, n: nat)
      reads this, Repr
      requires Valid()
    {
      && n <= |path| && path[..n] in Routes()
      && forall k: nat :: k <= |path| && path[..k] in Routes() ==> k <= n
    }

    ghost predicate NoRoute(path: Text)
      reads this, Repr
      requires Valid()
    {
      forall k: nat :: k <= |path| ==> path[..k] !in Routes()
    }

    constructor ()
      ensures Valid() && fresh(Repr) && Routes() == {}
    {
      routes := new Trie.Trie<MethodHandlers<H>>();
      new;
      Repr := {this} + routes.Repr;
    }

    /// The last registration of a route and method wins; every other entry is kept.
    method Add(route: Text, verb: HttpMethod, action: H)
      requires Valid() && route != []
      modifies Repr
      ensures Valid() && fresh(Repr - old(Repr))
      ensures Routes() == old(Routes()) + {route}
      ensures forall r: Text, m: HttpMethod ::
                Table(r, m) == if r == route && m == verb then Some(action) else old(Table(r, m))
    {
      var taken := routes.MoveValueOut(route);
      var handlers :=
        match taken
        case None => NoHandlers<H>()
        case Some(value) => value;
      handlers := handlers.SetAction(verb, action);
      assert handlers.GetAction(verb).Some?;
      routes.AddValue(route, handlers);
      Repr := Repr + routes.Repr;
    }

    function Get(route: Text, verb: HttpMethod): (r: Option<H>)
      reads this, Repr
      requires Valid()
      ensures r == Table(route, verb)
    {
      match routes.GetValue(route)
      case None => None
      case Some(handlers) => handlers.GetAction(verb)
    }

    /// The entry of the longest registered route the path starts with, byte by byte.  When that route has no handler
    /// for the method there is none: a shorter route is not tried.
    function GetPrefix(path: Text, verb: HttpMethod): (r: Option<H>)
      reads this, Repr
      requires Valid()
      ensures forall n: nat :: LongestRoute(path, n) ==> r == Table(path[..n], verb)
      ensures NoRoute(path) ==> r == None
      ensures NoRoute(path) || exists n: nat :: LongestRoute(path, n)
    {
      assert forall n: nat :: Trie.Stored(routes.Contents(), path, n) <==> n <= |path| && path[..n] in Routes();
      assert forall n: nat :: Trie.LongestStored(routes.Contents(), path, n) <==> LongestRoute(path, n);
      match routes.GetValuePrefix(path)
      case None => None
      case Some(handlers) => handlers.GetAction(verb)
    }
  }

  // ---------------------------------------------------------------- dispatch

  /// The part of a request the dispatch reads and writes.
  class Request {
    var verb: HttpMethod
    var uri: Text

    constructor (verb: HttpMethod, uri: Text)
      ensures this.verb == verb && this.uri == uri
    {
      this.verb, this.uri := verb, uri;
    }
  }

  /// The answer: an error status, or what the handler made of the request.
  datatype Answer<H> = InternalServerError | NotFound | Handled(action: H)

  /// The entry `run_action` looks up for a normalised path.
  ghost predicate Selects<H>(router: Router<H>, path: Text, verb: HttpMethod, found: Option<H>)
    reads router, router.Repr
    requires router.Valid()
  {
    || (router.NoRoute(path) && found == None)
    || (exists n: nat :: router.LongestRoute(path, n) && found == router.Table(path[..n], verb))
  }

  lemma SelectsExactly<H>(router: Router<H>, path: Text, verb: HttpMethod, found: Option<H>)
    requires router.Valid()
    ensures Selects(router, path, verb, found) <==> found == router.GetPrefix(path, verb)
  {
    var r := router.GetPrefix(path, verb);
    if !router.NoRoute(path) {
      var n: nat :| router.LongestRoute(path, n);
      assert r == router.Table(path[..n], verb);
    }
  }

  /// `run_action`: the handler of the longest route below which the normalised path lies is called with that path as
  /// the request's URI; 404 exactly when the path normalises and there is no such handler, 500 exactly when it does
  /// not.
  method RunAction<H>(request: Request, router: Router<H>) returns (answer: Answer<H>)
    requires router.Valid() && request !in router.Repr
    modifies request`uri
    ensures answer.InternalServerError? <==> Normalized(old(request.uri)) == None
    ensures answer.NotFound? <==>
              && Normalized(old(request.uri)).Some?
              && Selects(router, Normalized(old(request.uri)).value, request.verb, None)
    ensures answer.Handled? ==>
              && Normalized(old(request.uri)) == Some(request.uri)
              && Selects(router, request.uri, request.verb, Some(answer.action))
    ensures !answer.Handled? ==> request.uri == old(request.uri)
  {
    var normalized := Normalize(request.uri);
    if normalized.None? {
      return InternalServerError;
    }
    var path := normalized.value;
    var action := router.GetPrefix(path, request.verb);
    SelectsExactly(router, path, request.verb, None);
    SelectsExactly(router, path, request.verb, action);
    if action.None? {
      return NotFound;
    }
    request.uri := path;
    answer := Handled(action.value);
  }
}
