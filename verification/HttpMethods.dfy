/** The HTTP methods, their names and their places in a route's row of handlers. */
module HttpMethods {
  import opened Bytes

  datatype HttpMethod = GET | HEAD | POST | PUT | DELETE | CONNECT | OPTIONS | TRACE | PATCH
  {
    function Index(): (i: nat)
      ensures i < METHODS
    {
      match this
      case GET => 0
      case HEAD => 1
      case POST => 2
      case PUT => 3
      case DELETE => 4
      case CONNECT => 5
      case OPTIONS => 6
      case TRACE => 7
      case PATCH => 8
    }

    function Name(): string {
      match this
      case GET => "GET"
      case HEAD => "HEAD"
      case POST => "POST"
      case PUT => "PUT"
      case DELETE => "DELETE"
      case CONNECT => "CONNECT"
      case OPTIONS => "OPTIONS"
      case TRACE => "TRACE"
      case PATCH => "PATCH"
    }
  }

  const METHODS: nat := 9

  lemma IndexInjective(a: HttpMethod, b: HttpMethod)
    ensures a.Index() == b.Index() ==> a == b
  {}

  function MethodFromText(t: Text): Option<HttpMethod> {
    if t == Ascii("GET") then Some(GET)
    else if t == Ascii("HEAD") then Some(HEAD)
    else if t == Ascii("POST") then Some(POST)
    else if t == Ascii("PUT") then Some(PUT)
    else if t == Ascii("DELETE") then Some(DELETE)
    else if t == Ascii("CONNECT") then Some(CONNECT)
    else if t == Ascii("OPTIONS") then Some(OPTIONS)
    else if t == Ascii("TRACE") then Some(TRACE)
    else if t == Ascii("PATCH") then Some(PATCH)
    else None
  }
}
