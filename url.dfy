/** `http::URL` (include/net/http.h, src/net/url.cpp): an absolute URL split
    into scheme, host, port, path and query with `find` and `substr` only.
    `parse` puts a scheme-dependent default port in when none is written and
    "/" when no '/' follows the scheme; the query keeps its leading '?'.

    One quirk is modelled as written: when the first '/' after the scheme comes
    after the first '?', `path_end - path_start` wraps around as an unsigned
    value, so the path runs from that '/' to the end of the string (the model
    assumes, as any real string satisfies, that the wrapped count exceeds the
    string's length). */
module Urls {
  import opened Results
  import opened Text

  datatype Url = Url(scheme: string, host: string, port: string, path: string, query: string)

  /** The port used when the host segment names none. */
  function DefaultPort(scheme: string): (p: string)
    ensures scheme == "https" ==> p == "443"
    ensures scheme != "https" ==> p == "80"
  {
    if scheme == "https" then "443" else "80"
  }

  /** The host segment split on its first ':' into host and port, the port
      defaulting by scheme when there is no ':'. */
  function SplitHostPort(scheme: string, seg: string): (hp: (string, string))
    ensures ':' !in hp.0 && |hp.0| <= |seg|
    ensures ':' !in seg ==> hp == (seg, DefaultPort(scheme))
    ensures ':' in seg ==> seg == hp.0 + ":" + hp.1
  {
    match FindChar(seg, ':', 0)
    case Some(p) => (seg[..p], seg[p + 1..])
    case None => (seg, DefaultPort(scheme))
  }

  /** `URL::from_path`: split a request target at its first '?'; only the
      path and the query are filled in. */
  function FromPath(pathAndQuery: string): (u: Url)
    ensures u.path + u.query == pathAndQuery
    ensures '?' !in u.path
    ensures u.query == [] || u.query[0] == '?'
    ensures u.scheme == u.host == u.port == ""
  {
    match FindChar(pathAndQuery, '?', 0)
    case Some(q) => Url("", "", "", pathAndQuery[..q], pathAndQuery[q..])
    case None => Url("", "", "", pathAndQuery, "")
  }

  /** `URL::full_path`. */
  function FullPath(u: Url): string {
    u.path + u.query
  }

  /** `from_path` and `full_path` are inverse: the request target is
      recovered exactly. */
  lemma {:induction false} FullPathOfFromPath(s: string)
    ensures FullPath(FromPath(s)) == s
  {
  }

  /** Where `parse` ends the host segment: `std::min(path_start,
      query_start)`, `npos` being the largest value, or the end when both are
      `npos`. */
  function HostEnd(pathStart: Option<nat>, queryStart: Option<nat>, len: nat): (e: nat)
    ensures pathStart.Some? ==> e <= pathStart.value
    ensures queryStart.Some? ==> e <= queryStart.value
    ensures pathStart.None? && queryStart.None? ==> e == len
    ensures e == len || (pathStart.Some? && e == pathStart.value) || (queryStart.Some? && e == queryStart.value)
  {
    if pathStart.Some? && queryStart.Some? then
      (if pathStart.value < queryStart.value then pathStart.value else queryStart.value)
    else if pathStart.Some? then pathStart.value
    else if queryStart.Some? then queryStart.value
    else len
  }

  /** The path `parse` takes: from `path_start` up to `query_start`, or to
      the end when there is no '?' or when the '?' comes first (the
      wrapped-around count); "/" when there is no '/'. */
  function PathOf(raw: string, pathStart: Option<nat>, queryStart: Option<nat>): (path: string)
    requires pathStart.Some? ==> pathStart.value < |raw| && raw[pathStart.value] == '/'
    requires queryStart.Some? ==> queryStart.value < |raw| && raw[queryStart.value] == '?'
    ensures |path| > 0 && path[0] == '/'
  {
    if pathStart.None? then "/"
    else
      var pathEnd := if queryStart.Some? then queryStart.value else |raw|;
      if pathEnd >= pathStart.value then raw[pathStart.value..pathEnd]
      else raw[pathStart.value..]  // path_end - path_start wrapped around: substr runs to the end
  }

  /** The query `parse` takes: the suffix from `query_start`, '?' included,
      or "" when there is none. */
  function QueryOf(raw: string, queryStart: Option<nat>): (query: string)
    requires queryStart.Some? ==> queryStart.value < |raw| && raw[queryStart.value] == '?'
    ensures query == [] || query[0] == '?'
  {
    if queryStart.Some? then raw[queryStart.value..] else ""
  }

  /** `URL::parse`. */
  function Parse(raw: string): (r: Result<Url>)
    ensures r.Err? <==> forall i: nat :: !OccursAt(raw, "://", i)
    ensures r.Err? ==> r.error == "Invalid URL: missing scheme"
    ensures r.Ok? ==> OccursAt(raw, "://", |r.value.scheme|) && raw[..|r.value.scheme|] == r.value.scheme
    ensures r.Ok? ==> forall i: nat :: i < |r.value.scheme| ==> !OccursAt(raw, "://", i)
    ensures r.Ok? ==> ':' !in r.value.host && '/' !in r.value.host && '?' !in r.value.host
    ensures r.Ok? ==> |r.value.path| > 0 && r.value.path[0] == '/'
    ensures r.Ok? ==> r.value.query == [] || r.value.query[0] == '?'
  {
    match Find(raw, "://", 0)
    case None => Err("Invalid URL: missing scheme")
    case Some(schemeEnd) =>
      var scheme := raw[..schemeEnd];
      var pos := schemeEnd + 3;
      var pathStart := FindChar(raw, '/', pos);
      var queryStart := FindChar(raw, '?', pos);
      var hostEnd := HostEnd(pathStart, queryStart, |raw|);
      var hostPort := raw[pos..hostEnd];
      assert '/' !in hostPort && '?' !in hostPort;
      var hp := SplitHostPort(scheme, hostPort);
      Ok(Url(scheme, hp.0, hp.1, PathOf(raw, pathStart, queryStart), QueryOf(raw, queryStart)))
  }

  /** The first "://" of `scheme + "://"` is the one after the scheme (true of
      every scheme without ':'). */
  predicate SchemeIsPrefix(scheme: string) {
    forall i: nat :: i < |scheme| ==> !OccursAt(scheme + "://", "://", i)
  }

  /** The first "://" in `scheme + "://" + rest` ends the scheme. */
  lemma {:induction false} SchemeFound(scheme: string, rest: string)
    requires SchemeIsPrefix(scheme)
    ensures Find(scheme + "://" + rest, "://", 0) == Some(|scheme|)
  {
    var t := scheme + "://";
    var s := t + rest;
    assert OccursAt(t, "://", |scheme|);
    assert Find(t, "://", 0) == Some(|scheme|);
    assert s[..|t|] == t;
    FindInPrefix(s, t, "://", 0);
  }

  /** `parse` on a string whose scheme, host segment, path and query have
      been located: it gives the URL made of those parts. */
  lemma {:induction false} ParseAt(raw: string, scheme: string, seg: string, path: string, query: string)
    requires Find(raw, "://", 0) == Some(|scheme|) && raw[..|scheme|] == scheme
    requires var n := |scheme| + 3;
             var e := HostEnd(FindChar(raw, '/', n), FindChar(raw, '?', n), |raw|);
             n <= e <= |raw| && raw[n..e] == seg
    requires PathOf(raw, FindChar(raw, '/', |scheme| + 3), FindChar(raw, '?', |scheme| + 3)) == path
    requires QueryOf(raw, FindChar(raw, '?', |scheme| + 3)) == query
    ensures var hp := SplitHostPort(scheme, seg);
            Parse(raw) == Ok(Url(scheme, hp.0, hp.1, path, query))
  {
  }


  /** Where the pieces of `scheme + "://" + seg + tail` lie: the scheme ends
      at the first "://", the host segment follows it, then the tail. */
  lemma {:induction false} Layout(scheme: string, seg: string, tail: string)
    requires SchemeIsPrefix(scheme)
    ensures var raw := scheme + "://" + seg + tail;
            var n := |scheme| + 3;
            && |raw| == n + |seg| + |tail|
            && Find(raw, "://", 0) == Some(|scheme|)
            && raw[..|scheme|] == scheme
            && (forall j :: n <= j < n + |seg| ==> raw[j] == seg[j - n])
            && (forall j :: n + |seg| <= j < |raw| ==> raw[j] == tail[j - n - |seg|])
            && raw[n..n + |seg|] == seg && raw[n + |seg|..] == tail
  {
    var raw := scheme + "://" + seg + tail;
    SchemeFound(scheme, seg + tail);
    assert raw == scheme + "://" + (seg + tail);
    assert raw[..|scheme|] == scheme;
  }

  /** Where the pieces of `scheme + "://" + seg + path + query` lie. */
  lemma {:induction false} PathLayout(scheme: string, seg: string, path: string, query: string)
    requires SchemeIsPrefix(scheme)
    ensures var raw := scheme + "://" + seg + path + query;
            var n := |scheme| + 3;
            var a := n + |seg|;
            var b := a + |path|;
            && |raw| == b + |query|
            && Find(raw, "://", 0) == Some(|scheme|)
            && raw[..|scheme|] == scheme
            && (forall j :: n <= j < a ==> raw[j] == seg[j - n])
            && (forall j :: a <= j < b ==> raw[j] == path[j - a])
            && raw[n..a] == seg && raw[a..b] == path && raw[b..] == query
  {
    var raw := scheme + "://" + seg + path + query;
    SchemeFound(scheme, seg + path + query);
    assert raw == scheme + "://" + (seg + path + query);
    assert raw[..|scheme|] == scheme;
  }

  /** The searches `parse` makes after the scheme, on a string laid out as a
      host segment from `n` up to `a` without '/' or '?', a path from the '/'
      at `a` up to `b` without '?', and from `b` on either nothing or a query
      starting with '?'. */
  lemma {:induction false} SearchLayout(raw: string, n: nat, a: nat, b: nat)
    requires n <= a < b <= |raw|
    requires forall j :: n <= j < a ==> raw[j] != '/' && raw[j] != '?'
    requires raw[a] == '/' && forall j :: a < j < b ==> raw[j] != '?'
    requires b == |raw| || raw[b] == '?'
    ensures FindChar(raw, '/', n) == Some(a)
    ensures FindChar(raw, '?', n) == if b == |raw| then None else Some(b)
    ensures HostEnd(FindChar(raw, '/', n), FindChar(raw, '?', n), |raw|) == a
    ensures PathOf(raw, FindChar(raw, '/', n), FindChar(raw, '?', n)) == raw[a..b]
    ensures QueryOf(raw, FindChar(raw, '?', n)) == raw[b..]
  {
    FindCharIs(raw, '/', n, a);
    if b < |raw| {
      FindCharIs(raw, '?', n, b);
    }
  }

  /** A URL written as scheme, "://", a host segment without '/' or '?', a
      path starting with '/' and holding no '?', and an optional query
      starting with '?' parses back into exactly those parts. */
  lemma {:induction false} ParseWithPath(scheme: string, seg: string, path: string, query: string)
    requires SchemeIsPrefix(scheme)
    requires '/' !in seg && '?' !in seg
    requires |path| > 0 && path[0] == '/' && '?' !in path
    requires query == [] || query[0] == '?'
    ensures var hp := SplitHostPort(scheme, seg);
            Parse(scheme + "://" + seg + path + query) == Ok(Url(scheme, hp.0, hp.1, path, query))
  {
    var raw := scheme + "://" + seg + path + query;
    var n := |scheme| + 3;
    PathLayout(scheme, seg, path, query);
    SearchLayout(raw, n, n + |seg|, n + |seg| + |path|);
    ParseAt(raw, scheme, seg, path, query);
  }

  /** The searches `parse` makes after the scheme when no '/' follows: a
      host segment from `n` up to `a` without '/' or '?', then nothing or a
      query starting with '?' and holding no '/'. */
  lemma {:induction false} SearchNoSlash(raw: string, n: nat, a: nat)
    requires n <= a <= |raw|
    requires forall j :: n <= j < a ==> raw[j] != '/' && raw[j] != '?'
    requires a == |raw| || raw[a] == '?'
    requires forall j :: a <= j < |raw| ==> raw[j] != '/'
    ensures FindChar(raw, '/', n) == None
    ensures FindChar(raw, '?', n) == if a == |raw| then None else Some(a)
    ensures HostEnd(FindChar(raw, '/', n), FindChar(raw, '?', n), |raw|) == a
    ensures PathOf(raw, FindChar(raw, '/', n), FindChar(raw, '?', n)) == "/"
    ensures QueryOf(raw, FindChar(raw, '?', n)) == raw[a..]
  {
    if a < |raw| {
      FindCharIs(raw, '?', n, a);
    }
  }

  /** The searches `parse` makes when the first '?' after the scheme, at
      `a`, comes before the first '/', at `c`. */
  lemma {:induction false} SearchSlashInQuery(raw: string, n: nat, a: nat, c: nat)
    requires n <= a < c < |raw|
    requires forall j :: n <= j < a ==> raw[j] != '/' && raw[j] != '?'
    requires raw[a] == '?' && raw[c] == '/'
    requires forall j :: a <= j < c ==> raw[j] != '/'
    ensures FindChar(raw, '/', n) == Some(c)
    ensures FindChar(raw, '?', n) == Some(a)
    ensures HostEnd(FindChar(raw, '/', n), FindChar(raw, '?', n), |raw|) == a
    ensures PathOf(raw, FindChar(raw, '/', n), FindChar(raw, '?', n)) == raw[c..]
    ensures QueryOf(raw, FindChar(raw, '?', n)) == raw[a..]
  {
    FindCharIs(raw, '?', n, a);
    FindCharIs(raw, '/', n, c);
  }

  /** A URL written as scheme, "://", a host segment without '/' or '?' and
      an optional query starting with '?' and holding no '/' gets the path
      "/" and keeps the query. */
  lemma {:induction false} ParseWithoutPath(scheme: string, seg: string, query: string)
    requires SchemeIsPrefix(scheme)
    requires '/' !in seg && '?' !in seg
    requires query == [] || query[0] == '?'
    requires '/' !in query
    ensures var hp := SplitHostPort(scheme, seg);
            Parse(scheme + "://" + seg + query) == Ok(Url(scheme, hp.0, hp.1, "/", query))
  {
    var raw := scheme + "://" + seg + query;
    var n := |scheme| + 3;
    Layout(scheme, seg, query);
    SearchNoSlash(raw, n, n + |seg|);
    ParseAt(raw, scheme, seg, "/", query);
  }

  /** When a '/' occurs only inside the query, `parse` takes as path the text
      from that '/' to the end: the path repeats the tail of the query. */
  lemma {:induction false} ParseQuerySlash(scheme: string, seg: string, q1: string, q2: string)
    requires SchemeIsPrefix(scheme)
    requires '/' !in seg && '?' !in seg
    requires '/' !in q1
    ensures var hp := SplitHostPort(scheme, seg);
            Parse(scheme + "://" + seg + ("?" + q1 + "/" + q2)) ==
            Ok(Url(scheme, hp.0, hp.1, "/" + q2, "?" + q1 + "/" + q2))
  {
    var query := "?" + q1 + "/" + q2;
    var raw := scheme + "://" + seg + query;
    var n := |scheme| + 3;
    var a := n + |seg|;
    var c := a + 1 + |q1|;
    Layout(scheme, seg, query);
    QueryText(q1, q2);
    SearchSlashInQuery(raw, n, a, c);
    ParseAt(raw, scheme, seg, "/" + q2, query);
  }

  /** Where the pieces of the query `"?" + q1 + "/" + q2` lie. */
  lemma {:induction false} QueryText(q1: string, q2: string)
    ensures var query := "?" + q1 + "/" + q2;
            && |query| == |q1| + 2 + |q2|
            && query[0] == '?' && query[|q1| + 1] == '/'
            && (forall j :: 1 <= j < |q1| + 1 ==> query[j] == q1[j - 1])
            && query[|q1| + 1..] == "/" + q2
  {
    var query := "?" + q1 + "/" + q2;
    assert query == "?" + q1 + ("/" + q2);
  }

  /** A scheme without ':' is one whose first "://" is the one after it. */
  lemma {:induction false} SchemeWithoutColon(scheme: string)
    requires ':' !in scheme
    ensures SchemeIsPrefix(scheme)
  {
    var t := scheme + "://";
    forall i: nat | i < |scheme| ensures !OccursAt(t, "://", i) {
      assert t[i] == scheme[i];
      if i + 3 <= |t| {
        assert t[i..i + 3][0] == t[i];
      }
    }
  }

  /** The same on a concrete URL: the query of
      "http://example.com?next=/home" is read whole, and its tail is read a
      second time as the path. */
  lemma {:induction false} QuirkExample()
    ensures Parse("http://example.com?next=/home") ==
            Ok(Url("http", "example.com", "80", "/home", "?next=/home"))
  {
    SchemeWithoutColon("http");
    ParseQuerySlash("http", "example.com", "next=", "home");
    ExampleText();
  }

  /** The pieces of the example URL. */
  lemma {:induction false} ExampleText()
    ensures "http" + "://" + "example.com" + ("?" + "next=" + "/" + "home") == "http://example.com?next=/home"
    ensures "/" + "home" == "/home" && "?" + "next=" + "/" + "home" == "?next=/home"
    ensures SplitHostPort("http", "example.com") == ("example.com", "80")
  {
    assert ':' !in "example.com";
  }

  /** An explicit path takes the default port of "http". */
  lemma {:induction false} ParseHttpExample()
    ensures Parse("http://example.com/path") == Ok(Url("http", "example.com", "80", "/path", ""))
  {
    SchemeWithoutColon("http");
    ParseWithPath("http", "example.com", "/path", "");
    HttpText();
  }

  /** An explicit path takes the default port of "https". */
  lemma {:induction false} ParseHttpsExample()
    ensures Parse("https://secure.example.com/api") == Ok(Url("https", "secure.example.com", "443", "/api", ""))
  {
    SchemeWithoutColon("https");
    ParseWithPath("https", "secure.example.com", "/api", "");
    HttpsText();
  }

  /** An explicit port is split off the host. */
  lemma {:induction false} ParsePortExample()
    ensures Parse("http://localhost:5000/test") == Ok(Url("http", "localhost", "5000", "/test", ""))
  {
    SchemeWithoutColon("http");
    ParseWithPath("http", "localhost:5000", "/test", "");
    PortText();
  }

  /** A query with no path gets the path "/". */
  lemma {:induction false} ParseQueryExample()
    ensures Parse("http://example.com?query=value") == Ok(Url("http", "example.com", "80", "/", "?query=value"))
  {
    SchemeWithoutColon("http");
    ParseWithoutPath("http", "example.com", "?query=value");
    HttpText();
  }

  /** The pieces of the first literal URL. */
  lemma {:induction false} HttpText()
    ensures "http" + "://" + "example.com" + "/path" + "" == "http://example.com/path"
    ensures "http" + "://" + "example.com" + "?query=value" == "http://example.com?query=value"
    ensures SplitHostPort("http", "example.com") == ("example.com", "80")
  {
    assert ':' !in "example.com";
  }

  /** The pieces of the second literal URL. */
  lemma {:induction false} HttpsText()
    ensures "https" + "://" + "secure.example.com" + "/api" + "" == "https://secure.example.com/api"
    ensures SplitHostPort("https", "secure.example.com") == ("secure.example.com", "443")
  {
    assert ':' !in "secure.example.com";
  }

  /** The pieces of the third literal URL. */
  lemma {:induction false} PortText()
    ensures "http" + "://" + "localhost:5000" + "/test" + "" == "http://localhost:5000/test"
    ensures SplitHostPort("http", "localhost:5000") == ("localhost", "5000")
  {
    var hp := "localhost:5000";
    assert hp[9] == ':' && forall j :: 0 <= j < 9 ==> hp[j] != ':';
    FindCharIs(hp, ':', 0, 9);
    assert hp[..9] == "localhost" && hp[10..] == "5000";
  }

  // ---------------------------------------------------------------------------
  // The corrected parse: a '/' that comes after the first '?' belongs to the
  // query and does not start a path.

  /** The '/' that starts the path, if it comes before the query. */
  function SlashBeforeQuery(pathStart: Option<nat>, queryStart: Option<nat>): (p: Option<nat>)
    ensures p.Some? ==> pathStart == p && (queryStart.None? || p.value <= queryStart.value)
    ensures p.None? ==> pathStart.None? || (queryStart.Some? && queryStart.value < pathStart.value)
  {
    if pathStart.Some? && queryStart.Some? && queryStart.value < pathStart.value then None else pathStart
  }

  /** `URL::parse` as its tests intend it: like `Parse`, except that a '/'
      found only after the first '?' leaves the path at "/". The path then
      never holds a '?'. */
  function ParseFixed(raw: string): (r: Result<Url>)
    ensures r.Err? <==> forall i: nat :: !OccursAt(raw, "://", i)
    ensures r.Err? ==> r.error == "Invalid URL: missing scheme"
    ensures r.Ok? ==> OccursAt(raw, "://", |r.value.scheme|) && raw[..|r.value.scheme|] == r.value.scheme
    ensures r.Ok? ==> ':' !in r.value.host && '/' !in r.value.host && '?' !in r.value.host
    ensures r.Ok? ==> |r.value.path| > 0 && r.value.path[0] == '/' && '?' !in r.value.path
    ensures r.Ok? ==> r.value.query == [] || r.value.query[0] == '?'
  {
    match Find(raw, "://", 0)
    case None => Err("Invalid URL: missing scheme")
    case Some(schemeEnd) =>
      var scheme := raw[..schemeEnd];
      var pos := schemeEnd + 3;
      var queryStart := FindChar(raw, '?', pos);
      var pathStart := SlashBeforeQuery(FindChar(raw, '/', pos), queryStart);
      var hostEnd := HostEnd(pathStart, queryStart, |raw|);
      FixedParts(raw, pos);
      var hp := SplitHostPort(scheme, raw[pos..hostEnd]);
      Ok(Url(scheme, hp.0, hp.1, PathOf(raw, pathStart, queryStart), QueryOf(raw, queryStart)))
  }

  /** The host segment `ParseFixed` takes holds no '/' or '?', and its path
      holds no '?'. */
  lemma {:induction false} FixedParts(raw: string, pos: nat)
    requires pos <= |raw|
    ensures var qs := FindChar(raw, '?', pos);
            var ps := SlashBeforeQuery(FindChar(raw, '/', pos), qs);
            var e := HostEnd(ps, qs, |raw|);
            && pos <= e <= |raw|
            && '/' !in raw[pos..e] && '?' !in raw[pos..e]
            && '?' !in PathOf(raw, ps, qs)
  {
    var qs := FindChar(raw, '?', pos);
    var ps := SlashBeforeQuery(FindChar(raw, '/', pos), qs);
    var e := HostEnd(ps, qs, |raw|);
    assert '/' !in raw[pos..e] && '?' !in raw[pos..e];
    assert '?' !in PathOf(raw, ps, qs);
  }

  /** `ParseFixed` on a string whose scheme, host segment, path and query
      have been located. */
  lemma {:induction false} ParseFixedAt(raw: string, scheme: string, seg: string, path: string, query: string)
    requires Find(raw, "://", 0) == Some(|scheme|) && raw[..|scheme|] == scheme
    requires var n := |scheme| + 3;
             var ps := SlashBeforeQuery(FindChar(raw, '/', n), FindChar(raw, '?', n));
             var e := HostEnd(ps, FindChar(raw, '?', n), |raw|);
             n <= e <= |raw| && raw[n..e] == seg
    requires var n := |scheme| + 3;
             PathOf(raw, SlashBeforeQuery(FindChar(raw, '/', n), FindChar(raw, '?', n)), FindChar(raw, '?', n)) == path
    requires QueryOf(raw, FindChar(raw, '?', |scheme| + 3)) == query
    ensures var hp := SplitHostPort(scheme, seg);
            ParseFixed(raw) == Ok(Url(scheme, hp.0, hp.1, path, query))
  {
  }

  /** With the correction, a URL with no path gets the path "/" and keeps its
      whole query, whatever the query holds. */
  lemma {:induction false} ParseFixedWithoutPath(scheme: string, seg: string, query: string)
    requires SchemeIsPrefix(scheme)
    requires '/' !in seg && '?' !in seg
    requires query == [] || query[0] == '?'
    ensures var hp := SplitHostPort(scheme, seg);
            ParseFixed(scheme + "://" + seg + query) == Ok(Url(scheme, hp.0, hp.1, "/", query))
  {
    var raw := scheme + "://" + seg + query;
    var n := |scheme| + 3;
    var a := n + |seg|;
    Layout(scheme, seg, query);
    if query == [] {
      SearchNoSlash(raw, n, a);
    } else {
      FindCharIs(raw, '?', n, a);
    }
    ParseFixedAt(raw, scheme, seg, "/", query);
  }

  /** The correction changes nothing on a URL with a path: `ParseFixed` and
      `Parse` agree there, so `ParseWithPath` holds of `ParseFixed` too. */
  lemma {:induction false} ParseFixedWithPath(scheme: string, seg: string, path: string, query: string)
    requires SchemeIsPrefix(scheme)
    requires '/' !in seg && '?' !in seg
    requires |path| > 0 && path[0] == '/' && '?' !in path
    requires query == [] || query[0] == '?'
    ensures var raw := scheme + "://" + seg + path + query;
            ParseFixed(raw) == Parse(raw)
  {
    var raw := scheme + "://" + seg + path + query;
    var n := |scheme| + 3;
    PathLayout(scheme, seg, path, query);
    SearchLayout(raw, n, n + |seg|, n + |seg| + |path|);
    ParseAt(raw, scheme, seg, path, query);
    ParseFixedAt(raw, scheme, seg, path, query);
  }
}
