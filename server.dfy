/** The server side of the wire format (src/net/server.cpp): reading a request
    out of the text received on a connection, choosing the route that answers
    it, writing the response, and the state change of `stop`. Sockets, the
    accept loop and the worker threads are not part of this model. */
module ServerCore {
  import opened Results
  import opened Text
  import opened Streams
  import opened Methods
  import opened HeaderMap
  import opened Wire
  import opened Responses

  /** The request a handler receives. `ServerRequest` is not part of this
      model; these are the fields `parse_request` fills. */
  datatype ServerRequest = ServerRequest(verb: Method, path: string, query: string, headers: HeaderData, body: string)

  // ---------------------------------------------------------------------------
  // Reading a request

  /** `first_line >> method_str >> path_str`: the first two words of the
      request line, "" for a word that is not there (a failed extraction
      leaves its string empty and makes every later one fail). The version
      word is read and dropped. */
  function RequestTarget(line: string): (mt: (string, string))
    ensures forall i :: 0 <= i < |mt.0| ==> !IsSpace(mt.0[i])
    ensures forall i :: 0 <= i < |mt.1| ==> !IsSpace(mt.1[i])
    ensures mt.0 == "" ==> mt.1 == ""
  {
    match ReadWord(line, 0)
    case None => ("", "")
    case Some((m, p)) =>
      match ReadWord(line, p)
      case None => (m, "")
      case Some((t, _)) => (m, t)
  }

  /** The request target split at its first '?': the path before it and the
      query after it, without the '?'; a target without '?' is all path. */
  function SplitTarget(target: string): (pq: (string, string))
    ensures '?' !in target ==> pq.0 == target && pq.1 == ""
    ensures '?' in target ==> target == pq.0 + "?" + pq.1
    ensures '?' !in pq.0
  {
    match FindChar(target, '?', 0)
    case None => (target, "")
    case Some(q) =>
      assert target == target[..q] + "?" + target[q + 1..];
      (target[..q], target[q + 1..])
  }

  /** A path free of '?' joined to a query by '?' splits back into the two. */
  lemma {:induction false} SplitTargetOf(path: string, query: string)
    requires '?' !in path
    ensures SplitTarget(path + "?" + query).0 == path
    ensures SplitTarget(path + "?" + query).1 == query
  {
    var t := path + "?" + query;
    assert t[|path|] == '?';
    forall j | 0 <= j < |path| ensures t[j] != '?' {
      assert t[j] == path[j];
    }
    FindCharIs(t, '?', 0, |path|);
    assert t[..|path|] == path && t[|path| + 1..] == query;
  }

  /** What the body loop builds: every line `std::getline` still reads, each
      followed by "\n". */
  function BodyLines(s: string, pos: nat): string
    decreases |s| - pos
  {
    match GetLine(s, pos)
    case None => ""
    case Some((line, next)) => line + "\n" + BodyLines(s, next)
  }

  /** The text less one final '\n', if it ends with one. */
  function DropFinalNewline(b: string): (r: string)
    ensures b != [] && b[|b| - 1] == '\n' ==> b == r + "\n"
    ensures (b == [] || b[|b| - 1] != '\n') ==> r == b
  {
    if b != [] && b[|b| - 1] == '\n' then b[..|b| - 1] else b
  }

  /** The body loop gives back the rest of the text, with a '\n' added when
      the text does not already end with one. */
  lemma {:induction false} BodyLinesText(s: string, pos: nat)
    requires pos <= |s|
    ensures BodyLines(s, pos) == s[pos..] + (if pos < |s| && s[|s| - 1] != '\n' then "\n" else "")
    decreases |s| - pos
  {
    match GetLine(s, pos)
    case None =>
    case Some((line, next)) =>
      GetLineText(s, pos);
      BodyLinesText(s, next);
      if s[pos..next] == line + "\n" {
        assert s[pos..] == s[pos..next] + s[next..];
        if next == |s| {
          assert s[|s| - 1] == (line + "\n")[|line|];
        } else {
          assert s[|s| - 1] == s[next..][|s| - 1 - next];
        }
      } else {
        assert s[|s| - 1] == line[|line| - 1];
      }
  }

  /** So the body `parse_request` keeps is the rest of the text less one
      final '\n'. */
  lemma {:induction false} BodyOf(s: string, pos: nat)
    requires pos <= |s|
    ensures DropFinalNewline(BodyLines(s, pos)) == DropFinalNewline(s[pos..])
  {
    BodyLinesText(s, pos);
    if pos < |s| && s[|s| - 1] != '\n' {
      var rest := s[pos..];
      assert rest[|rest| - 1] == s[|s| - 1];
      assert DropFinalNewline(rest) == rest;
      DropAdded(rest);
    }
  }

  /** A '\n' added and dropped leaves the text as it was. */
  lemma {:induction false} DropAdded(t: string)
    ensures DropFinalNewline(t + "\n") == t
  {
    assert (t + "\n")[..|t|] == t;
  }

  /** What `parse_request` gives for `raw`. An empty text is the only error.
      Otherwise the method is the first word of the first line, the target
      (the second word) is split at its first '?', the headers are read by
      the header loop from the second line on, and the body is the text
      after the line that ended that loop, less one final '\n'. */
  function RequestOf(raw: string): (r: Result<ServerRequest>)
    ensures r.Err? <==> raw == []
    ensures r.Err? ==> r.error == "Empty request"
  {
    match GetLine(raw, 0)
    case None => Err("Empty request")
    case Some((line, next)) =>
      var mt := RequestTarget(line);
      var pq := SplitTarget(mt.1);
      var block := ParseHeaders(raw, next, map[]);
      Ok(ServerRequest(StringToMethod(mt.0), pq.0, pq.1, block.0, DropFinalNewline(raw[block.1..])))
  }

  /** `parse_request`. */
  method ParseRequest(raw: string) returns (r: Result<ServerRequest>)
    ensures r == RequestOf(raw)
  {
    var first := GetLine(raw, 0);
    if first.None? {
      return Err("Empty request");
    }
    var line, pos := first.value.0, first.value.1;
    var mt := RequestTarget(line);
    var pq := SplitTarget(mt.1);
    var headers, end := ReadHeaders(raw, pos);
    var body := ReadBody(raw, end);
    r := Ok(ServerRequest(StringToMethod(mt.0), pq.0, pq.1, headers, body));
  }

  /** The body loop of `parse_request`: every remaining line and a "\n" are
      appended, then one final '\n' is dropped. */
  method ReadBody(raw: string, start: nat) returns (body: string)
    requires start <= |raw|
    ensures body == DropFinalNewline(raw[start..])
  {
    body := "";
    var pos := start;
    while true
      invariant start <= pos <= |raw|
      invariant body + BodyLines(raw, pos) == BodyLines(raw, start)
      decreases |raw| - pos
    {
      var got := GetLine(raw, pos);
      if got.None? {
        break;
      }
      var line, next := got.value.0, got.value.1;
      BodyLinesStep(raw, pos, body, line, next);
      body := body + line + "\n";
      pos := next;
    }
    ghost var all := body;
    assert all == BodyLines(raw, start);
    if body != [] && body[|body| - 1] == '\n' {
      body := body[..|body| - 1];
    }
    assert body == DropFinalNewline(all);
    BodyOf(raw, start);
  }

  /** One turn of the body loop. */
  lemma {:induction false} BodyLinesStep(s: string, pos: nat, body: string, line: string, next: nat)
    requires GetLine(s, pos) == Some((line, next))
    ensures (body + line + "\n") + BodyLines(s, next) == body + BodyLines(s, pos)
  {
  }

  // ---------------------------------------------------------------------------
  // Writing a response

  /** The reason phrase of the status line. */
  function ReasonPhrase(code: int): (reason: string)
    ensures reason == "Unknown" <==> code !in {200, 201, 204, 400, 404, 500}
    ensures reason != [] && '\n' !in reason && '\r' !in reason
  {
    if code == 200 then "OK"
    else if code == 201 then "Created"
    else if code == 204 then "No Content"
    else if code == 400 then "Bad Request"
    else if code == 404 then "Not Found"
    else if code == 500 then "Internal Server Error"
    else "Unknown"
  }

  /** The status line, without its "\r\n". */
  function StatusLine(code: int): string {
    "HTTP/1.1 " + IntToString(code) + " " + ReasonPhrase(code)
  }

  /** The text `build_response` writes: the status line, one line per header
      in map order, an empty line, then the body. */
  function ResponseText(resp: ResponseData): string {
    StatusLine(resp.statusCode) + "\r\n" + HeaderLines(resp.headers) + "\r\n" + resp.body
  }

  /** `build_response`. */
  method BuildResponse(resp: ResponseData) returns (out: string)
    ensures out == ResponseText(resp)
  {
    out := "HTTP/1.1 " + IntToString(resp.statusCode) + " ";
    out := out + ReasonPhrase(resp.statusCode);
    out := out + "\r\n";
    out := AppendHeaders(out, resp.headers);
    out := out + "\r\n";
    if resp.body != [] {
      out := out + resp.body;
    }
  }

  // ---------------------------------------------------------------------------
  // Choosing the route

  /** What a handler does: return a response or throw a `std::exception`
      whose `what()` is given. */
  datatype HandlerResult = Returns(response: ResponseData) | Throws(what: string)

  /** A registered route. `Route` is not part of this model; these are the
      fields `handle_client` uses. */
  datatype Route = Route(verb: Method, path: string, handler: ServerRequest -> HandlerResult)

  predicate Matches(route: Route, req: ServerRequest) {
    route.verb == req.verb && route.path == req.path
  }

  /** The first route from `from` on that matches the request. */
  function FirstMatch(routes: seq<Route>, req: ServerRequest, from: nat): (i: Option<nat>)
    requires from <= |routes|
    ensures i.Some? ==> from <= i.value < |routes| && Matches(routes[i.value], req)
    ensures i.Some? ==> forall j :: from <= j < i.value ==> !Matches(routes[j], req)
    ensures i.None? ==> forall j :: from <= j < |routes| ==> !Matches(routes[j], req)
    decreases |routes| - from
  {
    if from == |routes| then None
    else if Matches(routes[from], req) then Some(from)
    else FirstMatch(routes, req, from + 1)
  }

  /** The response a handler's outcome gives: its own response, or a 500
      carrying the exception's message. */
  function Outcome(result: HandlerResult): ResponseData {
    match result
    case Returns(resp) => resp
    case Throws(what) => NewResponse(500, "Error: " + what)
  }

  /** The response `handle_client` sends for a parse outcome: a 404 when the
      request could not be read or no route matches, otherwise the outcome
      of the first matching route's handler. */
  function ResponseFor(routes: seq<Route>, parsed: Result<ServerRequest>): ResponseData {
    if parsed.Err? then NewResponse(404, "Not Found")
    else
      match FirstMatch(routes, parsed.value, 0)
      case None => NewResponse(404, "Not Found")
      case Some(i) => Outcome(routes[i].handler(parsed.value))
  }

  /** The route loop of `handle_client`. */
  method Dispatch(routes: seq<Route>, parsed: Result<ServerRequest>) returns (resp: ResponseData)
    ensures resp == ResponseFor(routes, parsed)
  {
    resp := NewResponse(404, "Not Found");
    if parsed.Ok? {
      var req := parsed.value;
      var i := 0;
      while i < |routes|
        invariant 0 <= i <= |routes|
        invariant FirstMatch(routes, req, 0) == FirstMatch(routes, req, i)
        invariant resp == NewResponse(404, "Not Found")
      {
        if Matches(routes[i], req) {
          resp := Outcome(routes[i].handler(req));
          break;
        }
        i := i + 1;
      }
    }
  }

  /** The first matching route answers, whatever comes after it. */
  lemma {:induction false} FirstRouteWins(routes: seq<Route>, more: seq<Route>, req: ServerRequest, i: nat)
    requires i < |routes| && Matches(routes[i], req)
    requires forall j :: 0 <= j < i ==> !Matches(routes[j], req)
    ensures ResponseFor(routes + more, Ok(req)) == Outcome(routes[i].handler(req))
  {
    var all := routes + more;
    assert all[i] == routes[i];
    assert forall j :: 0 <= j < i ==> all[j] == routes[j];
    FirstMatchIs(all, req, 0, i);
  }

  /** `FirstMatch` is the matching route before which none matches. */
  lemma {:induction false} FirstMatchIs(routes: seq<Route>, req: ServerRequest, from: nat, i: nat)
    requires from <= i < |routes| && Matches(routes[i], req)
    requires forall j :: from <= j < i ==> !Matches(routes[j], req)
    ensures FirstMatch(routes, req, from) == Some(i)
    decreases i - from
  {
    if from < i {
      FirstMatchIs(routes, req, from + 1, i);
    }
  }

  /** An unreadable request or one without a matching route is answered by
      the 404 response "Not Found"; a throwing handler gives the 500
      response "Error: " followed by what it threw; a returning handler's
      response is sent as it is. */
  lemma {:induction false} ResponseForCodes(routes: seq<Route>, parsed: Result<ServerRequest>)
    ensures parsed.Err? ==> ResponseFor(routes, parsed) == NewResponse(404, "Not Found")
    ensures parsed.Ok? && (forall j :: 0 <= j < |routes| ==> !Matches(routes[j], parsed.value)) ==>
              ResponseFor(routes, parsed) == NewResponse(404, "Not Found")
    ensures parsed.Ok? && FirstMatch(routes, parsed.value, 0).Some? ==>
              var outcome := routes[FirstMatch(routes, parsed.value, 0).value].handler(parsed.value);
              (outcome.Throws? ==> ResponseFor(routes, parsed) == NewResponse(500, "Error: " + outcome.what)) &&
              (outcome.Returns? ==> ResponseFor(routes, parsed) == outcome.response)
  {
  }

  // ---------------------------------------------------------------------------
  // The server object

  /** The configuration a server is made with. `ServerConfig` is not part of
      this model; these are the fields the server code uses. */
  datatype ServerConfig = ServerConfig(serverSocket: int, port: int, isMultithreaded: bool)

  /** The configuration after `stop`: a listening socket (one that is not
      negative) is shut down and replaced by -1; a negative one is kept. */
  function Stopped(cfg: ServerConfig): (c: ServerConfig)
    ensures c.serverSocket < 0
    ensures cfg.serverSocket >= 0 ==> c.serverSocket == -1
    ensures cfg.serverSocket < 0 ==> c == cfg
    ensures c.port == cfg.port && c.isMultithreaded == cfg.isMultithreaded
  {
    if cfg.serverSocket >= 0 then cfg.(serverSocket := -1) else cfg
  }

  /** A second `stop` changes nothing. */
  lemma {:induction false} StopIdempotent(cfg: ServerConfig)
    ensures Stopped(Stopped(cfg)) == Stopped(cfg)
  {
  }

  class Server {
    var config: ServerConfig
    var routes: seq<Route>
    var running: bool

    /** `Server(cfg)`: no routes, not running. */
    constructor (cfg: ServerConfig)
      ensures config == cfg && routes == [] && !running
    {
      config := cfg;
      routes := [];
      running := false;
    }

    /** Stand-in for `route()`, which is not part of this model: the route is
        added at the end of the table. */
    method AddRoute(verb: Method, path: string, handler: ServerRequest -> HandlerResult)
      modifies this
      ensures routes == old(routes) + [Route(verb, path, handler)]
      ensures config == old(config) && running == old(running)
    {
      routes := routes + [Route(verb, path, handler)];
    }

    /** `handle_client` once `recv` has given `n` and the text `data`: nothing
        is sent when `n` is not positive; otherwise the text sent is the
        response written for the route chosen for the parsed request. */
    method HandleClient(n: int, data: string) returns (sent: Option<string>)
      ensures n <= 0 ==> sent == None
      ensures n > 0 ==> sent == Some(ResponseText(ResponseFor(routes, RequestOf(data))))
    {
      if n > 0 {
        var parsed := ParseRequest(data);
        var resp := Dispatch(routes, parsed);
        var text := BuildResponse(resp);
        sent := Some(text);
      } else {
        sent := None;
      }
    }

    /** `stop`. */
    method Stop()
      modifies this
      ensures !running && config == Stopped(old(config)) && routes == old(routes)
    {
      running := false;
      if config.serverSocket >= 0 {
        config := config.(serverSocket := -1);
      }
    }
  }
}
