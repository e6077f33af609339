/** `http::EMethod` and `method_to_string` (include/net/http.h), with a
    stand-in for `string_to_method`, whose definition is not part of this
    model: it is taken to be the inverse of `method_to_string` on the seven
    names and to answer GET otherwise, as `method_to_string` does for a value
    outside the enumeration. */
module Methods {

  datatype Method = GET | POST | PUT | DELETE | HEAD | PATCH | OPTIONS

  /** The seven upper-case method names. */
  function MethodToString(m: Method): (r: string)
    ensures |r| > 0 && forall i :: 0 <= i < |r| ==> 'A' <= r[i] <= 'Z'
    ensures r in {"GET", "POST", "PUT", "DELETE", "HEAD", "PATCH", "OPTIONS"}
  {
    match m
    case GET => "GET"
    case POST => "POST"
    case PUT => "PUT"
    case DELETE => "DELETE"
    case HEAD => "HEAD"
    case PATCH => "PATCH"
    case OPTIONS => "OPTIONS"
  }

  /** Stand-in for `string_to_method`. */
  function StringToMethod(s: string): (m: Method)
    ensures s !in {"GET", "POST", "PUT", "DELETE", "HEAD", "PATCH", "OPTIONS"} ==> m == GET
  {
    if s == "POST" then POST
    else if s == "PUT" then PUT
    else if s == "DELETE" then DELETE
    else if s == "HEAD" then HEAD
    else if s == "PATCH" then PATCH
    else if s == "OPTIONS" then OPTIONS
    else GET
  }

  /** Reading back a method name gives the method: so `method_to_string` is
      injective. */
  lemma {:induction false} MethodRoundTrip(m: Method)
    ensures StringToMethod(MethodToString(m)) == m
  {
  }

  lemma {:induction false} MethodToStringInjective(m1: Method, m2: Method)
    ensures MethodToString(m1) == MethodToString(m2) ==> m1 == m2
  {
    MethodRoundTrip(m1);
    MethodRoundTrip(m2);
  }
}
