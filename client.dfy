/** The client side of the wire format (src/net/client_impl.cpp): writing a
    request and handing it to `send` until all of it is accepted, reading a
    response out of the chunks `recv` delivers, and the `get`/`post` entry
    points. `connect_socket`, `send` and `recv` are not modelled as calls:
    their outcomes are parameters, `send` as the counts its calls report in
    turn and `recv` as the non-empty chunks it delivers before the end of the
    stream. */
module ClientCore {
  import opened Results
  import opened Text
  import opened Streams
  import opened Methods
  import opened HeaderMap
  import opened Wire
  import opened Urls
  import opened Requests
  import opened Responses

  // ---------------------------------------------------------------------------
  // Sending a request

  /** The text `send_request` writes: the request line, a Host line, one line
      per header in map order, an empty line, then the body. */
  function RequestText(verb: Method, u: Url, h: HeaderData, body: string): string {
    MethodToString(verb) + " " + FullPath(u) + " HTTP/1.1\r\n" + "Host: " + u.host + "\r\n" +
    HeaderLines(h) + "\r\n" + body
  }

  /** The writing half of `send_request`. */
  method SerializeRequest(req: Request) returns (text: string)
    ensures text == RequestText(req.verb, req.url, req.headers.data, req.body)
  {
    text := MethodToString(req.verb) + " " + FullPath(req.url) + " HTTP/1.1\r\n";
    text := text + "Host: " + req.url.host + "\r\n";
    text := AppendHeaders(text, req.headers.data);
    text := text + "\r\n";
    if req.body != [] {
      text := text + req.body;
    }
  }

  /** Whether the send loop gets `remaining` more bytes out when the calls to
      `send` report the counts `counts` in turn; a call beyond the last
      listed count is taken to fail. */
  function Delivered(counts: seq<int>, remaining: int): bool
    decreases |counts|
  {
    if remaining <= 0 then true
    else if counts == [] || counts[0] <= 0 then false
    else Delivered(counts[1..], remaining - counts[0])
  }

  /** The sum of some counts. */
  function Sum(counts: seq<int>): int
    decreases |counts|
  {
    if counts == [] then 0 else counts[0] + Sum(counts[1..])
  }

  /** The send loop gets the text out exactly when some run of successful
      calls, before the first failing one, adds up to at least its size. */
  lemma {:induction false} DeliveredSum(counts: seq<int>, remaining: int)
    ensures Delivered(counts, remaining) <==>
            exists k :: 0 <= k <= |counts| && (forall j :: 0 <= j < k ==> counts[j] > 0) && Sum(counts[..k]) >= remaining
    decreases |counts|
  {
    if remaining <= 0 {
      assert counts[..0] == [];
    } else if counts == [] || counts[0] <= 0 {
      forall k | 0 <= k <= |counts| && (forall j :: 0 <= j < k ==> counts[j] > 0)
        ensures Sum(counts[..k]) < remaining
      {
        assert k == 0;
        assert counts[..k] == [];
      }
    } else {
      var tail := counts[1..];
      DeliveredSum(tail, remaining - counts[0]);
      if Delivered(counts, remaining) {
        var k :| 0 <= k <= |tail| && (forall j :: 0 <= j < k ==> tail[j] > 0) && Sum(tail[..k]) >= remaining - counts[0];
        assert counts[..k + 1][1..] == tail[..k];
        assert forall j :: 0 <= j < k + 1 ==> counts[j] > 0 by {
          forall j | 0 <= j < k + 1 ensures counts[j] > 0 {
            if j > 0 { assert counts[j] == tail[j - 1]; }
          }
        }
      } else {
        forall k | 0 <= k <= |counts| && (forall j :: 0 <= j < k ==> counts[j] > 0)
          ensures Sum(counts[..k]) < remaining
        {
          if k == 0 {
            assert counts[..k] == [];
          } else {
            assert counts[..k][1..] == tail[..k - 1];
            assert forall j :: 0 <= j < k - 1 ==> tail[j] > 0 by {
              forall j | 0 <= j < k - 1 ensures tail[j] > 0 {
                assert tail[j] == counts[j + 1];
              }
            }
          }
        }
      }
    }
  }

  /** The send loop of `send_request`: each call is handed the rest of the
      text and the offset moves on by the count it reports; a count that is
      not positive fails the request. */
  method SendText(text: string, counts: seq<int>) returns (r: Result<()>)
    ensures r.Ok? <==> Delivered(counts, |text|)
    ensures r.Err? ==> r.error == "Failed to send request"
  {
    var sent := 0;
    var i := 0;
    while sent < |text|
      invariant 0 <= sent && 0 <= i <= |counts|
      invariant Delivered(counts[i..], |text| - sent) == Delivered(counts, |text|)
      decreases |text| - sent
    {
      assert counts[i..] == [] || counts[i..][1..] == counts[i + 1..];
      if i == |counts| || counts[i] <= 0 {
        return Err("Failed to send request");
      }
      sent := sent + counts[i];
      i := i + 1;
    }
    return Ok(());
  }

  /** `send_request`. */
  method SendRequest(req: Request, counts: seq<int>) returns (r: Result<()>)
    ensures r.Ok? <==> Delivered(counts, |RequestText(req.verb, req.url, req.headers.data, req.body)|)
    ensures r.Err? ==> r.error == "Failed to send request"
  {
    var text := SerializeRequest(req);
    r := SendText(text, counts);
  }

  // ---------------------------------------------------------------------------
  // Reading a response

  /** What ends the header section. */
  const HeaderEnd: string := "\r\n\r\n"

  /** `status_stream >> http_version >> resp.status_code` then
      `std::getline(status_stream, resp.status_text)` less one leading space:
      when the version word is missing the code stays 0; when the number
      cannot be read the code is what the extraction stored and the text
      stays empty; a '\r' at the end of the line is kept. */
  function StatusOf(line: string): (st: (Int32, string))
    ensures ReadWord(line, 0).None? ==> st.0 == 0 && st.1 == ""
  {
    match ReadWord(line, 0)
    case None => (0, "")
    case Some((_, p)) =>
      var n := ReadInt32(line, p);
      if !n.ok then (n.value, "")
      else
        match GetLine(line, n.next)
        case None => (n.value, "")
        case Some((t, _)) => (n.value, DropSpace(t))
  }

  /** The status and headers of a response. */
  datatype Head = Head(code: Int32, text: string, headers: HeaderData)

  /** The head read from the header section: the status from its first line
      (a default status when the section is empty), then the header loop on
      the lines after it. */
  function HeadOf(section: string): Head {
    match GetLine(section, 0)
    case None => Head(0, "", map[])
    case Some((line, next)) =>
      var st := StatusOf(line);
      Head(st.0, st.1, ParseHeaders(section, next, map[]).0)
  }

  /** The header section parse of `read_response`. */
  method ReadHead(section: string) returns (head: Head)
    ensures head == HeadOf(section)
  {
    var got := GetLine(section, 0);
    if got.None? {
      return Head(0, "", map[]);
    }
    var st := StatusOf(got.value.0);
    var h, _ := ReadHeaders(section, got.value.1);
    head := Head(st.0, st.1, h);
  }

  /** A Content-Length `std::stoull` reads without throwing: absent, or a
      numeral (after white space and a sign) whose digits fit 64 bits. */
  predicate LengthReadable(h: HeaderData) {
    var cl := HeaderMap.Get(h, "content-length");
    cl == "" || Stoull(cl).Some?
  }

  /** The Content-Length of a head, 0 when there is none. */
  function LengthOf(h: HeaderData): (n: nat)
    requires LengthReadable(h)
    ensures n < U64Limit
    ensures var cl := HeaderMap.Get(h, "content-length");
            (cl == "" ==> n == 0) && (cl != "" ==> Stoull(cl) == Some(n))
    ensures var cl := HeaderMap.Get(h, "content-length");
            cl != "" && IsDigits(cl) ==> n == DecimalValue(cl)
  {
    var cl := HeaderMap.Get(h, "content-length");
    if cl == "" then 0
    else
      assert IsDigits(cl) ==> Stoull(cl).value == DecimalValue(cl) by {
        if IsDigits(cl) { StoullDigits(cl); }
      }
      Stoull(cl).value
  }

  /** A Transfer-Encoding naming "chunked" (compared case-sensitively). */
  predicate Chunked(h: HeaderData) {
    Find(HeaderMap.Get(h, "transfer-encoding"), "chunked", 0).Some?
  }

  /** A stream whose header section, if it has one, carries a readable
      Content-Length. */
  predicate Readable(stream: string) {
    match Find(stream, HeaderEnd, 0)
    case None => true
    case Some(e) => LengthReadable(HeadOf(stream[..e]).headers)
  }

  /** The body kept from the bytes `rest` after the header section: none for
      a chunked response, all of them without a Content-Length (or with 0),
      otherwise at most Content-Length of them. */
  function FramedBody(h: HeaderData, rest: string): (body: string)
    requires LengthReadable(h)
  {
    if Chunked(h) then ""
    else if LengthOf(h) == 0 then rest
    else rest[..if LengthOf(h) < |rest| then LengthOf(h) else |rest|]
  }

  /** A framed body is a prefix of what follows the header section, no longer
      than a non-zero Content-Length, and as long as it when enough bytes
      arrived. */
  lemma {:induction false} FramedBodyBound(h: HeaderData, rest: string)
    requires LengthReadable(h)
    ensures var body := FramedBody(h, rest);
            |body| <= |rest| && body == rest[..|body|] &&
            (!Chunked(h) && LengthOf(h) > 0 ==> |body| <= LengthOf(h)) &&
            (!Chunked(h) && LengthOf(h) <= |rest| ==> |body| == (if LengthOf(h) == 0 then |rest| else LengthOf(h))) &&
            (!Chunked(h) && (LengthOf(h) == 0 || |rest| <= LengthOf(h)) ==> body == rest) &&
            (Chunked(h) ==> body == "")
  {
  }

  /** What `read_response` gives for the whole stream `recv` delivers: an
      error when no "\r\n\r\n" arrives before the end, otherwise the head
      read from the text before the first one and the body framed from the
      bytes after it. */
  function ResponseOf(stream: string): (r: Result<ResponseData>)
    requires Readable(stream)
    ensures r.Err? <==> forall j :: !OccursAt(stream, HeaderEnd, j)
    ensures r.Err? ==> r.error == "Failed to parse response headers"
  {
    match Find(stream, HeaderEnd, 0)
    case None => Err("Failed to parse response headers")
    case Some(e) =>
      var head := HeadOf(stream[..e]);
      Ok(ResponseData(head.code, head.text, head.headers, FramedBody(head.headers, stream[e + 4..])))
  }

  /** The bytes of all the chunks, in order. */
  function Concat(chunks: seq<string>): string
    decreases |chunks|
  {
    if chunks == [] then "" else Concat(chunks[..|chunks| - 1]) + chunks[|chunks| - 1]
  }

  /** The chunks received so far are a prefix of the whole stream. */
  lemma {:induction false} ConcatPrefix(chunks: seq<string>, i: nat)
    requires i <= |chunks|
    ensures |Concat(chunks[..i])| <= |Concat(chunks)|
    ensures Concat(chunks[..i]) == Concat(chunks)[..|Concat(chunks[..i])|]
    decreases |chunks| - i
  {
    if i < |chunks| {
      ConcatPrefix(chunks, i + 1);
      assert chunks[..i + 1][..i] == chunks[..i];
    } else {
      assert chunks[..i] == chunks;
    }
  }

  /** Receiving one more chunk appends it. */
  lemma {:induction false} ConcatStep(chunks: seq<string>, i: nat)
    requires i < |chunks|
    ensures Concat(chunks[..i + 1]) == Concat(chunks[..i]) + chunks[i]
  {
    assert chunks[..i + 1][..i] == chunks[..i];
  }

  /** `read_response`: chunks are appended to a buffer until it holds
      "\r\n\r\n"; the head is then read and the buffer keeps only what came
      after it; once the Content-Length (when non-zero and not chunked) is
      buffered the loop stops; the end of the stream stops it otherwise. */
  method ReadResponse(chunks: seq<string>) returns (r: Result<ResponseData>)
    requires forall i :: 0 <= i < |chunks| ==> chunks[i] != []
    requires Readable(Concat(chunks))
    ensures r == ResponseOf(Concat(chunks))
  {
    ghost var stream := Concat(chunks);
    var i, buffer, found := AwaitHead(chunks);
    if found.None? {
      assert chunks[..|chunks|] == chunks;
      return Err("Failed to parse response headers");
    }
    var hend := found.value;
    ConcatPrefix(chunks, i);
    FoundHead(stream, buffer, hend);
    ghost var got := buffer;
    var head, rest, contentLength, chunked := TakeHead(buffer, hend);
    buffer, i, got := AwaitBody(chunks, i, hend, got, rest, contentLength, chunked);
    var body := "";
    if !chunked && contentLength == 0 && buffer != [] {
      body := buffer;
    } else if !chunked && contentLength > 0 {
      body := buffer[..if contentLength < |buffer| then contentLength else |buffer|];
    }
    ReceivedBody(stream, got, hend, buffer, head.headers, body, contentLength, chunked);
    r := Ok(ResponseData(head.code, head.text, head.headers, body));
  }

  /** The first phase of `read_response`'s loop: chunks are appended to the
      buffer until it holds "\r\n\r\n" or the stream ends. */
  method AwaitHead(chunks: seq<string>) returns (i: nat, buffer: string, found: Option<nat>)
    ensures i <= |chunks| && buffer == Concat(chunks[..i])
    ensures found.None? ==> i == |chunks| && Find(buffer, HeaderEnd, 0).None?
    ensures found.Some? ==> Find(buffer, HeaderEnd, 0) == found
  {
    i, buffer, found := 0, "", None;
    while i < |chunks| && found.None?
      invariant i <= |chunks| && buffer == Concat(chunks[..i])
      invariant found == Find(buffer, HeaderEnd, 0)
    {
      ConcatStep(chunks, i);
      buffer := buffer + chunks[i];
      found := Find(buffer, HeaderEnd, 0);
      i := i + 1;
    }
  }

  /** The second phase of `read_response`'s loop, once the head is read:
      chunks are appended to what follows the head until a non-zero
      Content-Length of them is buffered (for a response that is not
      chunked) or the stream ends. */
  method AwaitBody(chunks: seq<string>, i0: nat, ghost hend: nat, ghost got0: string, buffer0: string,
                   contentLength: nat, chunked: bool) returns (buffer: string, i: nat, ghost got: string)
    requires i0 <= |chunks| && got0 == Concat(chunks[..i0])
    requires Received(Concat(chunks), got0, hend, buffer0)
    ensures Received(Concat(chunks), got, hend, buffer)
    ensures got == Concat(chunks) || (!chunked && 0 < contentLength <= |buffer|)
  {
    ghost var stream := Concat(chunks);
    buffer, i, got := buffer0, i0, got0;
    while i < |chunks| && (chunked || contentLength == 0 || |buffer| < contentLength)
      invariant i <= |chunks| && got == Concat(chunks[..i])
      invariant Received(stream, got, hend, buffer)
    {
      ConcatStep(chunks, i);
      ConcatPrefix(chunks, i + 1);
      ReceivedStep(stream, got, chunks[i], hend, buffer);
      got := got + chunks[i];
      buffer := buffer + chunks[i];
      i := i + 1;
    }
    if i == |chunks| {
      assert chunks[..|chunks|] == chunks;
    }
  }

  /** What `read_response` does once the buffer holds "\r\n\r\n" at `e`:
      the head is read from the text before it, the buffer keeps what comes
      after it, and the Content-Length and Transfer-Encoding are looked up. */
  method TakeHead(buffer: string, e: nat) returns (head: Head, rest: string, contentLength: nat, chunked: bool)
    requires e + 4 <= |buffer| && LengthReadable(HeadOf(buffer[..e]).headers)
    ensures head == HeadOf(buffer[..e]) && rest == buffer[e + 4..]
    ensures contentLength == LengthOf(head.headers) && chunked == Chunked(head.headers)
  {
    head := ReadHead(buffer[..e]);
    rest := buffer[e + 4..];
    contentLength := 0;
    var cl := HeaderMap.Get(head.headers, "content-length");
    if cl != "" {
      contentLength := Stoull(cl).value;
    }
    var te := HeaderMap.Get(head.headers, "transfer-encoding");
    chunked := Find(te, "chunked", 0).Some?;
  }

  /** The state of the framing loop once the head has been read, after the
      bytes `got` of the stream have arrived: the stream's first
      "\r\n\r\n" is at `hend` and has arrived, the head is read from the
      text before it, and the buffer holds what has arrived after it. */
  ghost predicate Received(stream: string, got: string, hend: nat, buffer: string) {
    |got| <= |stream| && got == stream[..|got|] && hend + 4 <= |got| && buffer == got[hend + 4..]
  }

  /** The bytes received hold the stream's first "\r\n\r\n": the head is
      read from the text before it. */
  lemma {:induction false} FoundHead(stream: string, buffer: string, e: nat)
    requires |buffer| <= |stream| && buffer == stream[..|buffer|]
    requires Find(buffer, HeaderEnd, 0) == Some(e) && Readable(stream)
    ensures Received(stream, buffer, e, buffer[e + 4..])
    ensures Find(stream, HeaderEnd, 0) == Some(e) && HeadOf(buffer[..e]) == HeadOf(stream[..e])
    ensures LengthReadable(HeadOf(buffer[..e]).headers)
  {
    FindInPrefix(stream, buffer, HeaderEnd, 0);
    assert buffer[..e] == stream[..e];
  }

  /** One more chunk after the head keeps the framing state. */
  lemma {:induction false} ReceivedStep(stream: string, got: string, chunk: string, hend: nat, buffer: string)
    requires Received(stream, got, hend, buffer)
    requires |got + chunk| <= |stream| && got + chunk == stream[..|got + chunk|]
    ensures Received(stream, got + chunk, hend, buffer + chunk)
  {
    assert (got + chunk)[hend + 4..] == got[hend + 4..] + chunk;
  }

  /** The body the loop keeps is the framed body of the rest of the stream. */
  lemma {:induction false} ReceivedBody(stream: string, got: string, hend: nat, buffer: string,
                                        h: HeaderData, body: string, contentLength: nat, chunked: bool)
    requires Received(stream, got, hend, buffer)
    requires LengthReadable(h)
    requires contentLength == LengthOf(h) && chunked == Chunked(h)
    requires got == stream || (!chunked && 0 < contentLength <= |buffer|)
    requires chunked ==> body == ""
    requires !chunked && contentLength == 0 ==> body == buffer
    requires !chunked && contentLength > 0 ==> body == buffer[..if contentLength < |buffer| then contentLength else |buffer|]
    ensures body == FramedBody(h, stream[hend + 4..])
  {
    var rest := stream[hend + 4..];
    if got == stream {
      assert buffer == rest;
    } else {
      assert buffer == rest[..|buffer|];
    }
  }

  // ---------------------------------------------------------------------------
  // The exchange and the entry points

  /** What `async_send`'s task gives for the request text: the connection's
      error, the send error, or the response read from the stream. */
  function ExchangeOf(text: string, connected: Result<int>, counts: seq<int>, stream: string): (r: Result<ResponseData>)
    requires Readable(stream)
    ensures connected.Err? ==> r == Err(connected.error)
    ensures connected.Ok? && !Delivered(counts, |text|) ==> r == Err("Failed to send request")
    ensures connected.Ok? && Delivered(counts, |text|) ==> r == ResponseOf(stream)
  {
    if connected.Err? then Err(connected.error)
    else if !Delivered(counts, |text|) then Err("Failed to send request")
    else ResponseOf(stream)
  }

  /** The task of `async_send`, given the outcome of `connect_socket`. */
  method Exchange(req: Request, connected: Result<int>, counts: seq<int>, chunks: seq<string>)
    returns (r: Result<ResponseData>)
    requires forall i :: 0 <= i < |chunks| ==> chunks[i] != []
    requires Readable(Concat(chunks))
    ensures r == ExchangeOf(RequestText(req.verb, req.url, req.headers.data, req.body), connected, counts, Concat(chunks))
  {
    if connected.Err? {
      return Err(connected.error);
    }
    var sent := SendRequest(req, counts);
    if sent.Err? {
      return Err(sent.error);
    }
    r := ReadResponse(chunks);
  }

  /** `Client::get`: an unparseable URL is an error before any socket
      operation; otherwise a GET request for the URL is exchanged. */
  method Get(urlText: string, connected: Result<int>, counts: seq<int>, chunks: seq<string>)
    returns (r: Result<ResponseData>)
    requires forall i :: 0 <= i < |chunks| ==> chunks[i] != []
    requires Readable(Concat(chunks))
    ensures Parse(urlText).Err? ==> r == Err(Parse(urlText).error)
    ensures Parse(urlText).Ok? ==>
              var u := Parse(urlText).value;
              r == ExchangeOf(RequestText(GET, u, DefaultHeaders(u), ""), connected, counts, Concat(chunks))
  {
    var parsed := Parse(urlText);
    if parsed.Err? {
      return Err(parsed.error);
    }
    var req := new Request(GET, parsed.value);
    r := Exchange(req, connected, counts, chunks);
  }

  /** `Client::post`: as `get`, with a POST request whose body is set by
      `set_body`, which adds its Content-Length. */
  method Post(urlText: string, body: string, connected: Result<int>, counts: seq<int>, chunks: seq<string>)
    returns (r: Result<ResponseData>)
    requires forall i :: 0 <= i < |chunks| ==> chunks[i] != []
    requires Readable(Concat(chunks))
    ensures Parse(urlText).Err? ==> r == Err(Parse(urlText).error)
    ensures Parse(urlText).Ok? ==>
              var u := Parse(urlText).value;
              r == ExchangeOf(RequestText(POST, u, WithContentLength(DefaultHeaders(u), body), body),
                              connected, counts, Concat(chunks))
  {
    var parsed := Parse(urlText);
    if parsed.Err? {
      return Err(parsed.error);
    }
    var req := new Request(POST, parsed.value);
    req.SetBody(body);
    r := Exchange(req, connected, counts, chunks);
  }
}
