/** The two codecs against each other: a request written by the client
    (src/net/client_impl.cpp, `send_request`) is read by the server
    (src/net/server.cpp, `parse_request`) as the method, path, query, headers
    and body it was written from, and a response written by the server
    (`build_response`) is read by the client (`read_response`) as its status,
    headers and body. */
module RoundTrip {
  import opened Results
  import opened Text
  import opened Streams
  import opened Methods
  import opened HeaderMap
  import opened Wire
  import opened Urls
  import opened Responses
  import ServerCore
  import ClientCore

  // ---------------------------------------------------------------------------
  // Client to server

  /** A request target the request line can carry: one word, so non-empty
      and free of white space. */
  predicate Word(t: string) {
    t != [] && forall i :: 0 <= i < |t| ==> !IsSpace(t[i])
  }

  /** The query the server reports for a URL query: without its '?'. */
  function ServerQuery(q: string): string {
    if q == [] then [] else q[1..]
  }

  /** Two words and a tail that starts with white space: the request line
      loop reads the two words. */
  lemma {:induction false} TwoWordsRead(a: string, b: string, tail: string)
    requires Word(a) && Word(b) && tail != [] && IsSpace(tail[0])
    ensures ServerCore.RequestTarget(a + " " + b + tail).0 == a
    ensures ServerCore.RequestTarget(a + " " + b + tail).1 == b
  {
    var line := a + " " + b + tail;
    var p := |a| + 1;
    assert line[..|a|] == a && line[|a|] == ' ';
    ReadWordAt(line, 0, 0, a);
    assert line[p..p + |b|] == b && line[p + |b|] == tail[0];
    ReadWordAt(line, |a|, p, b);
  }

  /** A method name is a word. */
  lemma {:induction false} MethodWord(verb: Method)
    ensures Word(MethodToString(verb)) && '\n' !in MethodToString(verb)
  {
    var m := MethodToString(verb);
    assert forall i :: 0 <= i < |m| ==> !IsSpace(m[i]);
  }

  /** The request line the client writes from a method name `m` and a
      target is one line, and reads back, word by word, as the two. */
  lemma {:induction false} RequestLineRead(m: string, target: string)
    requires Word(m) && Word(target)
    ensures '\n' !in m + " " + target + " HTTP/1.1\r"
    ensures ServerCore.RequestTarget(m + " " + target + " HTTP/1.1\r").0 == m
    ensures ServerCore.RequestTarget(m + " " + target + " HTTP/1.1\r").1 == target
  {
    TwoWordsRead(m, target, " HTTP/1.1\r");
    WordLine(m);
    WordLine(target);
  }

  /** A word has no line break. */
  lemma {:induction false} WordLine(t: string)
    requires Word(t)
    ensures '\n' !in t
  {
    assert forall i :: 0 <= i < |t| ==> t[i] != '\n';
  }

  /** The target written from a URL splits back into its path and its query
      less the '?'. */
  lemma {:induction false} TargetSplit(u: Url)
    requires '?' !in u.path && (u.query == [] || u.query[0] == '?')
    ensures ServerCore.SplitTarget(FullPath(u)) == (u.path, ServerQuery(u.query))
  {
    if u.query == [] {
      assert FullPath(u) == u.path;
    } else {
      assert FullPath(u) == u.path + "?" + u.query[1..];
      ServerCore.SplitTargetOf(u.path, u.query[1..]);
    }
  }

  /** `set("Host", host)` on an empty map stores the host under "host". */
  lemma {:induction false} HostKey(host: string)
    ensures Put(map[], "Host", host) == map["host" := host]
  {
    var l := Lower("Host");
    assert l[0] == 'h' && l[1] == 'o' && l[2] == 's' && l[3] == 't';
    assert l == "host";
  }

  /** The Host line is read as the first header. */
  lemma {:induction false} HostLineRead(s: string, pos: nat, host: string)
    requires '\n' !in host
    requires pos + |HeaderLine("Host", host)| <= |s| && s[pos..pos + |HeaderLine("Host", host)|] == HeaderLine("Host", host)
    ensures HeaderTurn(s, pos, map[]) == Go(map["host" := host], pos + |HeaderLine("Host", host)|)
  {
    TurnOfLine(s, pos, "Host", host, map[]);
    HostKey(host);
  }

  /** The Host line, the header lines and the empty line read back as the
      headers with the Host line's value under "host" unless the headers
      name a host of their own, which is read after it. */
  lemma {:induction false} HostThenHeaders(s: string, pos: nat, host: string, h: HeaderData)
    requires '\n' !in host && Writable(h)
    requires var t := HeaderLine("Host", host) + (HeaderLines(h) + "\r\n");
             pos + |t| <= |s| && s[pos..pos + |t|] == t
    ensures ParseHeaders(s, pos, map[]).0 == map["host" := host] + h
    ensures ParseHeaders(s, pos, map[]).1 == pos + |HeaderLine("Host", host)| + |HeaderLines(h)| + 2
  {
    var hl := HeaderLine("Host", host);
    var b := HeaderLines(h) + "\r\n";
    var next := pos + |hl|;
    var acc := map["host" := host];
    SliceSplit(s, pos, hl, b);
    HostLineRead(s, pos, host);
    ParseHeadersGo(s, pos, map[], acc, next);
    HeadersOnto(s, next, acc, h, b);
  }

  /** A written header block `b` read onto a map `acc` gives `acc` updated
      by the block's headers. */
  lemma {:induction false} HeadersOnto(s: string, pos: nat, acc: HeaderData, h: HeaderData, b: string)
    requires Writable(h) && b == HeaderLines(h) + "\r\n"
    requires pos + |b| <= |s| && s[pos..pos + |b|] == b
    ensures ParseHeaders(s, pos, acc).0 == acc + h
    ensures ParseHeaders(s, pos, acc).1 == pos + |HeaderLines(h)| + 2
  {
    WritableMapEntries(h);
    OverlayMapEntries(acc, h);
    TextReadBack(s, pos, MapEntries(h), HeaderLines(h), acc, acc + h);
  }

  /** A text made of three parts holds each at its place. */
  lemma {:induction false} ThreeParts(s: string, a: string, b: string, c: string)
    requires s == a + b + c
    ensures s[..|a|] == a && s[|a|..|a| + |b|] == b && s[|a| + |b|..] == c
  {
  }

  /** The request text is the request line, its '\n', the header block and
      the body. */
  lemma {:induction false} RequestTextParts(verb: Method, u: Url, h: HeaderData, body: string)
    ensures ClientCore.RequestText(verb, u, h, body) ==
            (MethodToString(verb) + " " + FullPath(u) + " HTTP/1.1\r" + "\n") +
            (HeaderLine("Host", u.host) + (HeaderLines(h) + "\r\n")) + body
  {
    RequestTextJoin(MethodToString(verb), FullPath(u), u.host, HeaderLines(h), body);
  }

  /** The request text regrouped: request line with its '\n', the Host line,
      the header lines and the empty line, then the body. */
  lemma {:induction false} RequestTextJoin(m: string, t: string, host: string, hl: string, body: string)
    ensures m + " " + t + " HTTP/1.1\r\n" + "Host: " + host + "\r\n" + hl + "\r\n" + body ==
            (m + " " + t + " HTTP/1.1\r" + "\n") + (HeaderLine("Host", host) + (hl + "\r\n")) + body
  {
  }

  /** `parse_request` on a text whose first line and header block are known. */
  lemma {:induction false} RequestOfParts(raw: string, line: string, next: nat, hs: HeaderData, end: nat, rest: string)
    requires GetLine(raw, 0) == Some((line, next))
    requires ParseHeaders(raw, next, map[]).0 == hs && ParseHeaders(raw, next, map[]).1 == end
    requires end <= |raw| && raw[end..] == rest
    ensures ServerCore.RequestOf(raw).Ok?
    ensures ServerCore.RequestOf(raw).value.verb == StringToMethod(ServerCore.RequestTarget(line).0)
    ensures ServerCore.RequestOf(raw).value.path == ServerCore.SplitTarget(ServerCore.RequestTarget(line).1).0
    ensures ServerCore.RequestOf(raw).value.query == ServerCore.SplitTarget(ServerCore.RequestTarget(line).1).1
    ensures ServerCore.RequestOf(raw).value.headers == hs
    ensures ServerCore.RequestOf(raw).value.body == ServerCore.DropFinalNewline(rest)
  {
  }

  /** A request result is the one built from its fields. */
  lemma {:induction false} SameRequest(r: Result<ServerCore.ServerRequest>, verb: Method, path: string, query: string,
                                       hs: HeaderData, body: string)
    requires r.Ok? && r.value.verb == verb && r.value.path == path && r.value.query == query
    requires r.value.headers == hs && r.value.body == body
    ensures r == Ok(ServerCore.ServerRequest(verb, path, query, hs, body))
  {
  }

  /** What the client writes, the server reads: the method, the path, the
      query less its '?', the headers together with the Host line (a "host"
      header of the request's own overriding it) and the body less one final
      '\n' (the server's line loop drops it). */
  lemma {:induction false} RequestReadBack(verb: Method, u: Url, h: HeaderData, body: string)
    requires Word(FullPath(u)) && '?' !in u.path && (u.query == [] || u.query[0] == '?')
    requires '\n' !in u.host && Writable(h)
    ensures ServerCore.RequestOf(ClientCore.RequestText(verb, u, h, body)) ==
            Ok(ServerCore.ServerRequest(verb, u.path, ServerQuery(u.query), map["host" := u.host] + h,
                                        ServerCore.DropFinalNewline(body)))
  {
    var raw := ClientCore.RequestText(verb, u, h, body);
    var line := MethodToString(verb) + " " + FullPath(u) + " HTTP/1.1\r";
    RequestTextParts(verb, u, h, body);
    MethodWord(verb);
    RequestLineRead(MethodToString(verb), FullPath(u));
    RequestPieces(raw, line, u.host, h, body);
    VerbOf(line, verb);
    PathOf(line, u);
    RequestOfFacts(raw, line, verb, u.path, ServerQuery(u.query), map["host" := u.host] + h, body);
  }

  /** `parse_request` on a text whose first line names `verb` and splits
      into `path` and `query`, with the headers `hs` after it and `body` at
      its end. */
  lemma {:induction false} RequestOfFacts(raw: string, line: string, verb: Method, path: string, query: string,
                                          hs: HeaderData, body: string)
    requires StringToMethod(ServerCore.RequestTarget(line).0) == verb
    requires ServerCore.SplitTarget(ServerCore.RequestTarget(line).1).0 == path
    requires ServerCore.SplitTarget(ServerCore.RequestTarget(line).1).1 == query
    requires |body| <= |raw| && GetLine(raw, 0) == Some((line, |line| + 1))
    requires ParseHeaders(raw, |line| + 1, map[]).0 == hs
    requires ParseHeaders(raw, |line| + 1, map[]).1 == |raw| - |body|
    requires raw[|raw| - |body|..] == body
    ensures ServerCore.RequestOf(raw) == Ok(ServerCore.ServerRequest(verb, path, query, hs, ServerCore.DropFinalNewline(body)))
  {
    RequestOfParts(raw, line, |line| + 1, hs, |raw| - |body|, body);
    SameRequest(ServerCore.RequestOf(raw), verb, path, query, hs, ServerCore.DropFinalNewline(body));
  }

  /** The method word of the request line names the method. */
  lemma {:induction false} VerbOf(line: string, verb: Method)
    requires ServerCore.RequestTarget(line).0 == MethodToString(verb)
    ensures StringToMethod(ServerCore.RequestTarget(line).0) == verb
  {
    MethodRoundTrip(verb);
  }

  /** The target word of the request line splits into the URL's path and
      query. */
  lemma {:induction false} PathOf(line: string, u: Url)
    requires '?' !in u.path && (u.query == [] || u.query[0] == '?')
    requires ServerCore.RequestTarget(line).1 == FullPath(u)
    ensures ServerCore.SplitTarget(ServerCore.RequestTarget(line).1).0 == u.path
    ensures ServerCore.SplitTarget(ServerCore.RequestTarget(line).1).1 == ServerQuery(u.query)
  {
    TargetSplit(u);
  }

  /** A request text made of a first line, the Host line and header block,
      and a body: `parse_request` reads the line, then the headers up to the
      body. */
  lemma {:induction false} RequestPieces(raw: string, line: string, host: string, h: HeaderData, body: string)
    requires '\n' !in line && '\n' !in host && Writable(h)
    requires raw == (line + "\n") + (HeaderLine("Host", host) + (HeaderLines(h) + "\r\n")) + body
    ensures GetLine(raw, 0) == Some((line, |line| + 1))
    ensures ParseHeaders(raw, |line| + 1, map[]).0 == map["host" := host] + h
    ensures ParseHeaders(raw, |line| + 1, map[]).1 == |raw| - |body|
    ensures raw[|raw| - |body|..] == body
  {
    var rest := HeaderLine("Host", host) + (HeaderLines(h) + "\r\n");
    ThreeParts(raw, line + "\n", rest, body);
    GetLineAt(raw, 0, line);
    HostThenHeaders(raw, |line| + 1, host, h);
  }

  // ---------------------------------------------------------------------------
  // Server to client

  /** Headers that read back as written wherever they stand in a header
      section: names and values without line breaks or '\r', names without
      ':' and in lower case. */
  predicate Plain(h: HeaderData) {
    Writable(h) && forall k :: k in h ==> '\r' !in k && '\r' !in h[k]
  }

  /** The entries of plain headers, in map order, are plain. */
  lemma {:induction false} PlainMapEntries(h: HeaderData)
    requires Plain(h)
    ensures PlainEntries(MapEntries(h)) && CanonicalKeys(h)
    ensures MapEntries(h) == [] <==> h == map[]
  {
    var es := MapEntries(h);
    MapEntriesOf(h);
    WritableMapEntries(h);
    forall i | 0 <= i < |es| ensures '\r' !in es[i].0 && '\r' !in es[i].1 {
      assert es[i].0 in h;
    }
    if es != [] {
      assert es[0].0 in Names(es);
    }
  }

  /** No line break of `t` is followed by '\r': no line after the first is
      empty or "\r". */
  predicate NoCRAfterLF(t: string) {
    forall i :: 0 <= i < |t| - 1 && t[i] == '\n' ==> t[i + 1] != '\r'
  }

  /** Joining two such texts keeps the property unless the second starts
      with '\r'. */
  lemma {:induction false} CleanJoin(a: string, b: string)
    requires NoCRAfterLF(a) && NoCRAfterLF(b) && (b == [] || b[0] != '\r')
    ensures NoCRAfterLF(a + b)
  {
    var t := a + b;
    forall i | 0 <= i < |t| - 1 && t[i] == '\n' ensures t[i + 1] != '\r' {
      if i + 1 < |a| {
        assert t[i] == a[i] && t[i + 1] == a[i + 1];
      } else if i + 1 == |a| {
        assert t[i + 1] == b[0];
      } else {
        assert t[i] == b[i - |a|] && t[i + 1] == b[i + 1 - |a|];
      }
    }
  }

  /** A line and its "\r\n" has its only line break at the end. */
  lemma {:induction false} EndLineClean(x: string)
    requires '\n' !in x
    ensures NoCRAfterLF(x + "\r\n")
  {
    var t := x + "\r\n";
    forall i | 0 <= i < |t| - 1 ensures t[i] != '\n' {
      if i < |x| { assert t[i] == x[i]; }
    }
  }

  /** The written header lines of plain entries. */
  lemma {:induction false} LinesClean(es: seq<(string, string)>)
    requires PlainEntries(es)
    ensures NoCRAfterLF(Lines(es)) && (Lines(es) == [] || Lines(es)[0] != '\r')
    decreases |es|
  {
    if es != [] {
      var k, v := es[0].0, es[0].1;
      var x := k + ": " + v;
      assert '\n' !in x;
      assert HeaderLine(k, v) == x + "\r\n";
      EndLineClean(x);
      assert PlainEntries(es[1..]) by {
        forall i | 0 <= i < |es[1..]| ensures es[1..][i] == es[i + 1] { }
      }
      LinesClean(es[1..]);
      CleanJoin(x + "\r\n", Lines(es[1..]));
      assert Lines(es)[0] == x[0];
      assert x[0] != '\r' by {
        if k != [] { assert x[0] == k[0] && k[0] in k; } else { assert x[0] == ':'; }
      }
    }
  }

  /** The status line has no line break and no '\r'. */
  lemma {:induction false} StatusLinePlain(code: Int32)
    ensures '\n' !in ServerCore.StatusLine(code) && '\r' !in ServerCore.StatusLine(code)
  {
    var t := IntToString(code);
    assert forall i :: 0 <= i < |t| ==> t[i] == '-' || IsDigit(t[i]) by {
      if code < 0 { assert forall i :: 1 <= i < |t| ==> t[i] == t[1..][i - 1]; }
    }
    assert '\n' !in t && '\r' !in t;
  }

  /** A response as `build_response` writes it, with the entries `es` as
      its header lines. */
  function Written(code: Int32, es: seq<(string, string)>, body: string): string {
    ServerCore.StatusLine(code) + "\r\n" + Lines(es) + "\r\n" + body
  }

  /** The header section of a written response: the status line, then the
      header lines up to the "\r\n\r\n" that ends the section. */
  function Section(code: Int32, es: seq<(string, string)>): string {
    if es == [] then ServerCore.StatusLine(code)
    else ServerCore.StatusLine(code) + "\r\n" + CutLines(es)
  }

  /** The written response is its section, "\r\n\r\n" and the body. */
  lemma {:induction false} WrittenParts(code: Int32, es: seq<(string, string)>, body: string)
    ensures Written(code, es, body) == Section(code, es) + ClientCore.HeaderEnd + body
  {
    if es != [] {
      CutLinesOf(es);
      Regroup(ServerCore.StatusLine(code), CutLines(es), body);
    }
  }

  /** The line breaks after the last header line and the blank line form
      "\r\n\r\n". */
  lemma {:induction false} Regroup(a: string, c: string, body: string)
    ensures a + "\r\n" + (c + "\r\n") + "\r\n" + body == (a + "\r\n" + c) + ClientCore.HeaderEnd + body
  {
  }

  /** The section and its "\r\n" are the status line and the header lines. */
  lemma {:induction false} SectionLines(code: Int32, es: seq<(string, string)>)
    ensures Section(code, es) + "\r\n" == ServerCore.StatusLine(code) + "\r\n" + Lines(es)
  {
    if es != [] {
      CutLinesOf(es);
    }
  }

  /** `find` is `k` when the pattern occurs at `k` and nowhere before. */
  lemma {:induction false} FindIs(s: string, pat: string, from: nat, k: nat)
    requires from <= k && OccursAt(s, pat, k)
    requires forall j :: from <= j < k ==> !OccursAt(s, pat, j)
    ensures Find(s, pat, from) == Some(k)
  {
  }

  /** The status line and the lines of plain entries have no line break
      followed by '\r'. */
  lemma {:induction false} HeadClean(code: Int32, es: seq<(string, string)>)
    requires PlainEntries(es)
    ensures NoCRAfterLF(ServerCore.StatusLine(code) + "\r\n" + Lines(es))
  {
    var sl := ServerCore.StatusLine(code);
    StatusLinePlain(code);
    EndLineClean(sl);
    LinesClean(es);
    CleanJoin(sl + "\r\n", Lines(es));
  }

  /** In a written response with plain headers, the first "\r\n\r\n" is
      the one that ends the section. */
  lemma {:induction false} FirstHeaderEnd(code: Int32, es: seq<(string, string)>, body: string)
    requires PlainEntries(es)
    ensures Find(Written(code, es, body), ClientCore.HeaderEnd, 0) == Some(|Section(code, es)|)
  {
    WrittenParts(code, es, body);
    SectionLines(code, es);
    HeadClean(code, es);
    CleanFind(Section(code, es), Written(code, es, body), body);
  }

  /** When no line break of a section and its "\r\n" is followed by '\r',
      the first "\r\n\r\n" is the one after the section. */
  lemma {:induction false} CleanFind(sec: string, t: string, body: string)
    requires NoCRAfterLF(sec + "\r\n")
    requires t == sec + ClientCore.HeaderEnd + body
    ensures Find(t, ClientCore.HeaderEnd, 0) == Some(|sec|)
  {
    var n := |sec|;
    var q := sec + "\r\n";
    assert t == q + "\r\n" + body;
    assert t[n..n + 4] == ClientCore.HeaderEnd;
    forall j | 0 <= j < n ensures !OccursAt(t, ClientCore.HeaderEnd, j) {
      assert t[j + 1] == q[j + 1] && t[j + 2] == q[j + 2];
      assert !(q[j + 1] == '\n' && q[j + 2] == '\r');
      if j + 4 <= |t| {
        assert t[j..j + 4][1] == t[j + 1] && t[j..j + 4][2] == t[j + 2];
      }
    }
    FindIs(t, ClientCore.HeaderEnd, 0, n);
  }

  /** The status line parse on a line whose version word, code and rest
      are known. */
  lemma {:induction false} StatusOfParts(line: string, p: nat, code: Int32, n: nat, rest: string)
    requires ReadWord(line, 0).Some? && ReadWord(line, 0).value.1 == p
    requires ReadInt32(line, p) == NumRead(true, code, n)
    requires GetLine(line, n) == Some((rest, |line|))
    ensures ClientCore.StatusOf(line).0 == code
    ensures ClientCore.StatusOf(line).1 == DropSpace(rest)
  {
  }

  /** One leading space is dropped. */
  lemma {:induction false} DropOneSpace(x: string)
    ensures DropSpace(" " + x) == x
  {
    assert (" " + x)[1..] == x;
  }

  /** The status line and what follows it on its line, split into the
      version word, the code and the rest. */
  lemma {:induction false} StatusLineParts(code: Int32, tail: string)
    ensures ServerCore.StatusLine(code) + tail ==
            "HTTP/1.1" + " " + IntToString(code) + (" " + (ServerCore.ReasonPhrase(code) + tail))
  {
  }

  /** The status line reads back as the code and the reason phrase, with a
      '\r' left at the end of the text when one follows the phrase. */
  lemma {:induction false} StatusRead(code: Int32, tail: string)
    requires tail == "" || tail == "\r"
    ensures ClientCore.StatusOf(ServerCore.StatusLine(code) + tail).0 == code
    ensures ClientCore.StatusOf(ServerCore.StatusLine(code) + tail).1 == ServerCore.ReasonPhrase(code) + tail
  {
    StatusReadOf(code, ServerCore.ReasonPhrase(code), tail);
    StatusLineParts(code, tail);
  }

  /** A status line with the code and a phrase `r` free of line breaks
      reads back as the code and the phrase with what follows it. */
  lemma {:induction false} StatusReadOf(code: Int32, r: string, tail: string)
    requires '\n' !in r && (tail == "" || tail == "\r")
    ensures var line := "HTTP/1.1" + " " + IntToString(code) + (" " + (r + tail));
            ClientCore.StatusOf(line).0 == code && ClientCore.StatusOf(line).1 == r + tail
  {
    var post := " " + (r + tail);
    var t := IntToString(code);
    var line := "HTTP/1.1" + " " + t + post;
    assert '\n' !in post;
    VersionWord(line, t + post);
    ReadInt32OfIntToString("HTTP/1.1", " ", code, post);
    RestOfLine(line, 9 + |t|, post);
    StatusOfParts(line, 8, code, 9 + |t|, post);
    DropOneSpace(r + tail);
  }

  /** The version word at the start of a status line. */
  lemma {:induction false} VersionWord(line: string, rest: string)
    requires line == "HTTP/1.1" + " " + rest
    ensures ReadWord(line, 0) == Some(("HTTP/1.1", 8))
  {
    assert line[..8] == "HTTP/1.1" && line[8] == ' ';
    ReadWordAt(line, 0, 0, "HTTP/1.1");
  }

  /** The rest of a status line after the code. */
  lemma {:induction false} RestOfLine(line: string, n: nat, post: string)
    requires n <= |line| && line[n..] == post && post != [] && '\n' !in post
    ensures GetLine(line, n) == Some((post, |line|))
  {
    GetLineLast(line, n);
  }

  /** The head of a section whose first line is known. */
  lemma {:induction false} HeadOfParts(section: string, line: string, next: nat)
    requires GetLine(section, 0) == Some((line, next))
    ensures ClientCore.HeadOf(section).code == ClientCore.StatusOf(line).0
    ensures ClientCore.HeadOf(section).text == ClientCore.StatusOf(line).1
    ensures ClientCore.HeadOf(section).headers == ParseHeaders(section, next, map[]).0
  {
  }

  /** The section of a response without headers is its status line. */
  lemma {:induction false} BareSectionRead(code: Int32)
    ensures ClientCore.HeadOf(ServerCore.StatusLine(code)).code == code
    ensures ClientCore.HeadOf(ServerCore.StatusLine(code)).text == ServerCore.ReasonPhrase(code)
    ensures ClientCore.HeadOf(ServerCore.StatusLine(code)).headers == map[]
  {
    var sl := ServerCore.StatusLine(code);
    StatusLinePlain(code);
    assert sl[0..] == sl;
    GetLineLast(sl, 0);
    HeadOfParts(sl, sl, |sl|);
    StatusRead(code, "");
    assert sl + "" == sl;
    ParseHeadersStop(sl, |sl|, map[], |sl|);
  }

  /** A section with header lines: its first line is the status line with
      its '\r', and the cut lines after it read back as the entries. */
  lemma {:induction false} CutSectionLines(sec: string, sl: string, es: seq<(string, string)>)
    requires '\n' !in sl && es != [] && PlainEntries(es)
    requires sec == sl + "\r\n" + CutLines(es)
    ensures GetLine(sec, 0) == Some((sl + "\r", |sl| + 2))
    ensures ParseHeaders(sec, |sl| + 2, map[]).0 == Overlay(map[], es)
  {
    assert sec[0..|sl| + 2] == (sl + "\r") + "\n";
    GetLineAt(sec, 0, sl + "\r");
    assert sec[|sl| + 2..] == CutLines(es);
    CutBlockRead(sec, |sl| + 2, es, map[]);
  }

  /** The section of a response with header lines reads back as the code,
      the reason phrase with the '\r' of the status line's "\r\n", and the
      entries set in order. */
  lemma {:induction false} CutSectionRead(code: Int32, es: seq<(string, string)>)
    requires es != [] && PlainEntries(es)
    ensures ClientCore.HeadOf(Section(code, es)).code == code
    ensures ClientCore.HeadOf(Section(code, es)).text == ServerCore.ReasonPhrase(code) + "\r"
    ensures ClientCore.HeadOf(Section(code, es)).headers == Overlay(map[], es)
  {
    var sl := ServerCore.StatusLine(code);
    StatusLinePlain(code);
    StatusRead(code, "\r");
    CutHeadRead(Section(code, es), sl, es, code, ServerCore.ReasonPhrase(code) + "\r");
  }

  /** The head of a section made of a first line `sl` whose status reads as
      `code` and `text`, then cut header lines. */
  lemma {:induction false} CutHeadRead(sec: string, sl: string, es: seq<(string, string)>, code: Int32, text: string)
    requires '\n' !in sl && es != [] && PlainEntries(es)
    requires sec == sl + "\r\n" + CutLines(es)
    requires ClientCore.StatusOf(sl + "\r").0 == code && ClientCore.StatusOf(sl + "\r").1 == text
    ensures ClientCore.HeadOf(sec).code == code
    ensures ClientCore.HeadOf(sec).text == text
    ensures ClientCore.HeadOf(sec).headers == Overlay(map[], es)
  {
    CutSectionLines(sec, sl, es);
    HeadOfParts(sec, sl + "\r", |sl| + 2);
  }

  /** `read_response` on a whole stream whose first "\r\n\r\n" and head
      are known. */
  lemma {:induction false} ResponseOfParts(t: string, n: nat, hd: ClientCore.Head)
    requires Find(t, ClientCore.HeaderEnd, 0) == Some(n) && ClientCore.HeadOf(t[..n]) == hd
    requires ClientCore.LengthReadable(hd.headers)
    ensures ClientCore.Readable(t)
    ensures ClientCore.ResponseOf(t) == Ok(ResponseData(hd.code, hd.text, hd.headers, ClientCore.FramedBody(hd.headers, t[n + 4..])))
  {
  }

  /** What the server writes, the client reads: the code, the reason phrase
      (keeping the '\r' of the status line when headers follow), the headers
      and the body as the headers frame it. */
  lemma {:induction false} ResponseReadBack(resp: ResponseData)
    requires Plain(resp.headers) && ClientCore.LengthReadable(resp.headers)
    ensures ClientCore.Readable(ServerCore.ResponseText(resp))
    ensures ClientCore.ResponseOf(ServerCore.ResponseText(resp)) ==
            Ok(ResponseData(resp.statusCode,
                            ServerCore.ReasonPhrase(resp.statusCode) + (if resp.headers == map[] then "" else "\r"),
                            resp.headers, ClientCore.FramedBody(resp.headers, resp.body)))
  {
    var h := resp.headers;
    var code := resp.statusCode;
    var es := MapEntries(h);
    PlainMapEntries(h);
    var t := ServerCore.ResponseText(resp);
    assert t == Written(code, es, resp.body);
    var sec := Section(code, es);
    WrittenParts(code, es, resp.body);
    ThreeParts(t, sec, ClientCore.HeaderEnd, resp.body);
    FirstHeaderEnd(code, es, resp.body);
    var text := ServerCore.ReasonPhrase(code) + (if h == map[] then "" else "\r");
    if h == map[] {
      BareSectionRead(code);
    } else {
      CutSectionRead(code, es);
      OverlayOntoEmpty(h);
    }
    ResponseOfParts(t, |sec|, ClientCore.Head(code, text, h));
  }

  /** A response built by `Response(code, body)` frames its own body: the
      client reads its Content-Length back with `std::stoull` as the size
      of the body, and keeps exactly the body from the bytes that follow
      the header section. */
  lemma {:induction false} BuiltResponseFramed(code: Int32, body: string)
    requires |body| < U64Limit
    ensures ClientCore.LengthReadable(NewResponse(code, body).headers)
    ensures ClientCore.LengthOf(NewResponse(code, body).headers) == |body|
    ensures ClientCore.FramedBody(NewResponse(code, body).headers, body) == body
  {
    var h := NewResponse(code, body).headers;
    var cl := Get(h, "content-length");
    NewResponseLength(code, body);
    assert cl == NatToString(|body|) by {
      assert Lower("content-length") == "content-length";
    }
    DecimalRoundTrip(|body|);
    StoullDigits(cl);
    assert Get(h, "transfer-encoding") == "" by {
      assert Lower("transfer-encoding") == "transfer-encoding";
      assert "transfer-encoding" !in h;
    }
    assert !ClientCore.Chunked(h);
  }
}
