# sap_http string-level HTTP/1.1 core, modelled in Dafny

This project models the string-level logic of a small HTTP/1.1 client and
server library written in C++:

- `URL::parse`, `URL::from_path` and `URL::full_path`;
- the case-insensitive `Headers` map;
- the `Request` and `Response` objects and `method_to_string`;
- the server's wire codec (`parse_request`, `build_response`), the route
  choice of `handle_client` and the state change of `stop`;
- the client's wire codec (`send_request` with its send loop,
  `read_response` with its framing loop) and the `get`/`post` entry points.

Sockets, threads and futures are not modelled. `recv` is a sequence of
non-empty chunks followed by the end of the stream. `send` is the sequence
of byte counts its calls report. `connect_socket` is its outcome, given as a
parameter.

Files and modules:

- `results.dfy` (`Results`): stand-in for `stl::result`, as `Ok(value) | Err(error)`.
- `text.dfy` (`Text`): `find`, ASCII `::tolower`, `std::to_string` and the
  value of a digit string.
- `streams.dfy` (`Streams`): the `std::istringstream` extractions
  (`getline`, `>>` into a string, `>>` into an `i32`) and `std::stoull`.
- `url.dfy` (`Urls`): URL parsing.
- `headers.dfy` (`HeaderMap`): `Headers`, a class whose `Set` updates the map
  in place. `get` and `has` are functions of the map.
- `methods.dfy` (`Methods`): `EMethod` and `method_to_string`.
- `requests.dfy` (`Requests`): the `Request` class.
- `responses.dfy` (`Responses`): the `Response` class and `ResponseData`, the
  value a response holds.
- `wire.dfy` (`Wire`): the header block both codecs share. This covers
  writing the map in `std::map` order (lexicographic key order, proved to be
  strictly increasing) and the `getline` header loop.
- `server.dfy` (`ServerCore`): the server side.
- `client.dfy` (`ClientCore`): the client side.
- `roundtrip.dfy` (`RoundTrip`): each codec against the other.

The loops of the source are Dafny `while` loops. Each loop method is proved
equal to a specification function, and the lemmas are about those
functions. For example, `ReadResponse` is proved equal to `ResponseOf` on
the concatenated stream, however the stream is split into chunks.

The model follows the code in these places, where the library's stated
design reads otherwise:

- A chunked response keeps an empty body. The code never assigns the body
  when `is_chunked` is set, so the body is not "whatever remains".
- On the client, the status text keeps the `'\r'` of the status line's
  `"\r\n"` whenever header lines follow. With no headers, the status line is
  the whole header section and has no `'\r'`. `RoundTrip.ResponseReadBack`
  states both cases.
- On the server, the body is the text after the header block less one
  final `'\n'`. The line loop rebuilds the text with `'\n'` after every
  line, so this is exactly what it keeps.
- `get` and `post` parse the URL with `Urls.Parse`, as written. A URL whose
  first '/' comes after its '?' therefore sends the wrapped path described
  in the Findings table: "http://example.com?next=/home" is requested as
  "/home?next=/home". `Urls.ParseFixed` is the corrected parse, with the
  same error cases.

## Model

| member | source | states |
|---|---|---|
| `Text.Lower` | src/net/headers.cpp:6-8 | the key is lowercased one character at a time: same length, no upper-case letter left, other characters unchanged |
| `Text.LowerIdempotent` | src/net/headers.cpp:6-9 | lowercasing a stored (already lowercased) key changes nothing |
| `Text.NatToString` | src/net/request.cpp:20 | `std::to_string` of a size is a non-empty digit string with no leading zero unless the value is 0 |
| `Text.DecimalRoundTrip` | src/net/client_impl.cpp:113 | the decimal value of a size written by `std::to_string` is the size |
| `Text.Find` | src/net/url.cpp:21 | `find` gives the least index at or after `from` where the pattern occurs, or none when it occurs nowhere |
| `Text.FindInPrefix` | src/net/client_impl.cpp:81 | the first "\r\n\r\n" found in a growing buffer is the first one of the whole stream |
| `Streams.GetLine` | src/net/server.cpp:22 | `getline` fails exactly at the end of the text, and otherwise moves past the line |
| `Streams.GetLineText` | src/net/server.cpp:38 | the line read has no '\n' and is followed by its '\n' or by the end of the text |
| `Streams.ReadWord` | src/net/server.cpp:27 | `>>` into a string fails exactly when only white space is left; otherwise it reads a maximal non-space run after white space |
| `Streams.ReadInt32` | src/net/client_impl.cpp:90 | `>>` into an `i32` stores a value in the `i32` range; with no digit left it fails and stores 0; when it fails otherwise it stores a bound |
| `Streams.ReadInt32Numeral` | src/net/client_impl.cpp:90 | on white space, an optional sign, digits and a non-digit: a value in the `i32` range is stored as itself; a value above it fails and stores the maximum, one below it fails and stores the minimum; the digits are consumed either way |
| `Streams.Stoull` | src/net/client_impl.cpp:113 | `std::stoull` gives a value below 2^64, and throws on a string with no digit |
| `Streams.StoullNumeral` | src/net/client_impl.cpp:113 | on white space, an optional sign, digits and anything not starting with a digit: the digits' value when it is below 2^64 (negated modulo 2^64 after '-'), a throw otherwise |
| `Streams.StoullDigits` | src/net/client_impl.cpp:113 | a plain digit string reads as its decimal value when below 2^64, and throws otherwise |
| `Streams.ReadInt32OfIntToString` | src/net/client_impl.cpp:90 | `>>` into an `i32` reads back what `operator<<` wrote, after any white space |
| `Urls.DefaultPort` | src/net/url.cpp:39-42 | the port is "443" exactly when the scheme is "https", and "80" otherwise |
| `Urls.SplitHostPort` | src/net/url.cpp:34-42 | the host never holds ':'; with no ':' the segment is the host and the port is the default; with one, segment == host + ":" + port |
| `Urls.FromPath` | src/net/url.cpp:5-15 | path + query is the input, the path holds no '?', and the query is empty or starts with '?' |
| `Urls.FullPathOfFromPath` | include/net/http.h:38 | `full_path` of `from_path(s)` is `s` |
| `Urls.HostEnd` | src/net/url.cpp:30-33 | the host segment ends at the first of the '/' and '?' found, or at the end when neither is |
| `Urls.PathOf` | src/net/url.cpp:44-50 | the path is never empty and starts with '/' |
| `Urls.QueryOf` | src/net/url.cpp:52-54 | the query is empty or starts with '?' |
| `Urls.Parse` | src/net/url.cpp:17-56 | error "Invalid URL: missing scheme" exactly when "://" occurs nowhere (the empty string included); the scheme is the text before the first "://"; the host holds no ':', '/' or '?'; the path starts with '/'; the query is empty or starts with '?' |
| `Urls.ParseWithPath` | src/net/url.cpp:25-54 | `scheme://seg/path[?query]` parses back into exactly that scheme, host and port of the segment, path and query |
| `Urls.ParseWithoutPath` | src/net/url.cpp:44-54 | with no '/' after the scheme, the path is "/" and the query is kept whole, with its '?' |
| `Urls.ParseHttpExample` | tests/url_tests.cpp:8-18 | "http://example.com/path" gives port "80", path "/path" and an empty query |
| `Urls.ParseHttpsExample` | tests/url_tests.cpp:20-29 | "https://secure.example.com/api" gives port "443" |
| `Urls.ParsePortExample` | tests/url_tests.cpp:83-90 | "http://localhost:5000/test" gives host "localhost" and port "5000" |
| `Urls.ParseQueryExample` | tests/url_tests.cpp:49-56 | "http://example.com?query=value" gives path "/" and query "?query=value" |
| `Urls.ParseQuerySlash` | src/net/url.cpp:45-47 | as written: when a '/' occurs only inside the query, the path is the text from that '/' to the end |
| `Urls.QuirkExample` | src/net/url.cpp:45-47 | as written: "http://example.com?next=/home" parses with path "/home" and query "?next=/home" |
| `Urls.ParseFixed` | src/net/url.cpp:17-56 | corrected parse: the same error cases and host guarantees as `Parse`, and the path never holds '?' |
| `Urls.ParseFixedWithoutPath` | src/net/url.cpp:44-54 | corrected parse: a URL with no path gets "/" and keeps its whole query, whatever the query holds |
| `Urls.ParseFixedWithPath` | src/net/url.cpp:28-54 | the correction changes nothing on a URL that has a path |
| `HeaderMap.Get` | src/net/headers.cpp:12-18 | `get` gives the value stored under the lowercased key, or "" when there is none |
| `HeaderMap.Has` | src/net/headers.cpp:20-25 | `has(k)` holds exactly when `lower(k)` is stored; when it fails, `get` gives "" |
| `HeaderMap.PutSpec` | src/net/headers.cpp:5-10 | after `set(k, v)`, every `k2` with `lower(k2) == lower(k)` finds `v`; every other name keeps its entry and presence; one key at most is added; stored keys stay lowercase |
| `HeaderMap.PutOverwrites` | src/net/headers.cpp:9 | a second `set` on a case-insensitively equal key replaces the first: the last write wins |
| `HeaderMap.PutCommutes` | src/net/headers.cpp:9 | `set` on two case-insensitively different keys commutes |
| `HeaderMap.Headers.constructor` | include/net/http.h:41-47 | a new header map is empty |
| `HeaderMap.Headers.Set` | src/net/headers.cpp:5-10 | `set` updates the member map in place to `data[lower(k) := v]` and keeps every key lowercase |
| `Methods.MethodToString` | include/net/http.h:17-28 | each method maps to its non-empty upper-case name among the seven |
| `Methods.StringToMethod` | tests/request_tests.cpp:56-64 | stand-in: a string that is none of the seven names reads as GET |
| `Methods.MethodRoundTrip` | tests/request_tests.cpp:56-64 | `string_to_method(method_to_string(m)) == m` for all seven methods |
| `Methods.MethodToStringInjective` | include/net/http.h:17-28 | two methods with the same name are the same method |
| `Requests.DefaultHeaders` | src/net/request.cpp:5-11 | a host gives exactly `user-agent = "cpp-http/1.0"` and `accept = "*/*"`; an empty host gives no header |
| `Requests.WithContentLength` | src/net/request.cpp:17-22 | an existing Content-Length is left as it is; otherwise one holding the decimal size of the body is added; every other header is unchanged |
| `Requests.ContentLengthValue` | src/net/request.cpp:19-21 | an added Content-Length reads back as the body's size |
| `Requests.ContentLengthKept` | src/net/request.cpp:19 | a second `set_body` keeps the Content-Length of the first |
| `Requests.SetBodyExample` | tests/request_tests.cpp:23-32 | `set_body("test body content")` on a new request gives Content-Length "17" |
| `Requests.Request.constructor` | src/net/request.cpp:5-11 | the method and URL are stored, the body is empty and the headers are the default headers |
| `Requests.Request.SetHeader` | src/net/request.cpp:13-15 | `set_header` has the effect of `headers.set` |
| `Requests.Request.SetBody` | src/net/request.cpp:17-22 | the body becomes `d` and the headers gain a Content-Length only when none was present; method and URL are unchanged |
| `Responses.NewResponse` | src/net/response_impl.cpp:4-8 | status code and body as given, empty status text, exactly the keys content-length (decimal size of the body) and content-type ("text/plain") |
| `Responses.NewResponseLength` | src/net/response_impl.cpp:6 | the Content-Length reads back as the size of the body, "0" for an empty one |
| `Responses.HelloWorldExample` | tests/response_tests.cpp:34-38 | `Response(200, "Hello World")` has Content-Length "11" and is a success; 404 and 500 are not |
| `Responses.Response.Empty` | include/net/http.h:66 | `Response()` has code 0, empty text, no header and an empty body |
| `Responses.Response.constructor` | src/net/response_impl.cpp:4-8 | the object holds `NewResponse(code, body)` |
| `Responses.Response.IsSuccess` | include/net/http.h:68 | `is_success` holds exactly when 200 <= code < 300 |
| `Wire.SortedKeys` | include/net/http.h:42 | the `std::map` visiting order lists every key exactly once |
| `Wire.SortedKeysSorted` | include/net/http.h:42 | the visiting order is strictly increasing in string order |
| `Wire.MapEntriesOf` | src/net/server.cpp:89-91 | the entries written are the map's entries, every key appears, and no key appears twice |
| `Wire.AppendHeaders` | src/net/server.cpp:89-91 | the header loop appends one "k: v\r\n" line per header in map order |
| `Wire.ParseHeaderLine` | src/net/server.cpp:39-48 | a line without ':' (after one trailing '\r' is dropped) gives nothing; otherwise the name holds no ':' |
| `Wire.ParseHeaderLineText` | src/net/server.cpp:41-46 | a parsed line is its name, ": " and its value, or its name, ':' and a value that does not start with a space: the one space after the ':' is always dropped |
| `Wire.ParseHeaderLineOfWritten` | src/net/server.cpp:39-48 | a written "k: v\r" line reads back as (k, v) |
| `Wire.ReadHeaders` | src/net/server.cpp:38-49 | the `getline` loop that stops at an empty or "\r" line computes `ParseHeaders` |
| `Wire.HeadersRoundTrip` | src/net/server.cpp:38-49 | a header block as written (lines in map order, then "\r\n") reads back as the same map and stops right after the empty line |
| `Wire.OverlayMapEntries` | src/net/client_impl.cpp:97-108 | reading written headers onto a map `acc` gives `acc` updated by them |
| `Wire.CutBlockRead` | src/net/client_impl.cpp:97-108 | a header block cut before its "\r\n\r\n" reads back as its entries, set in order |
| `ServerCore.RequestTarget` | src/net/server.cpp:25-27 | the method and target words hold no white space, and no target is read without a method |
| `ServerCore.SplitTarget` | src/net/server.cpp:31-35 | with no '?' the path is the target and the query is empty; otherwise target == path + "?" + query, with no '?' in the path |
| `ServerCore.SplitTargetOf` | src/net/server.cpp:31-35 | a path free of '?' joined to a query by '?' splits back into the two |
| `ServerCore.DropFinalNewline` | src/net/server.cpp:55-57 | one trailing '\n' is removed, and only that |
| `ServerCore.BodyLinesText` | src/net/server.cpp:52-54 | the body loop rebuilds the rest of the text, with a '\n' added when the text does not end with one |
| `ServerCore.BodyOf` | src/net/server.cpp:50-58 | the body is the text after the header block less one final '\n' |
| `ServerCore.RequestOf` | src/net/server.cpp:18-60 | "Empty request" exactly for the empty text |
| `ServerCore.ParseRequest` | src/net/server.cpp:18-60 | `parse_request` computes `RequestOf` |
| `ServerCore.ReadBody` | src/net/server.cpp:50-58 | the body loop gives the rest of the text less one final '\n' |
| `ServerCore.ReasonPhrase` | src/net/server.cpp:64-87 | "Unknown" exactly for codes outside {200, 201, 204, 400, 404, 500}; each phrase is one line |
| `ServerCore.BuildResponse` | src/net/server.cpp:62-97 | the text is "HTTP/1.1 " + code + " " + reason + "\r\n", one line per header in map order, "\r\n", then the body |
| `ServerCore.FirstMatch` | src/net/server.cpp:120-121 | the index found matches on method and path, and no earlier route matches; with none found, no route matches |
| `ServerCore.Dispatch` | src/net/server.cpp:117-130 | the route loop gives the response of `ResponseFor` |
| `ServerCore.FirstRouteWins` | src/net/server.cpp:120-127 | the first route in table order with equal method and path answers, whatever follows it |
| `ServerCore.ResponseForCodes` | src/net/server.cpp:117-130 | an unreadable request or no matching route gives `Response(404, "Not Found")`; a throwing handler gives `Response(500, "Error: " + what)`; a returning handler's response is sent unchanged |
| `ServerCore.Stopped` | src/net/server.cpp:229-242 | after `stop` the socket is negative (an open one becomes -1), and port and threading mode are kept |
| `ServerCore.StopIdempotent` | src/net/server.cpp:229-242 | a second `stop` changes nothing |
| `ServerCore.Server.constructor` | src/net/server.cpp:99-101 | a new server holds its configuration, no route and is not running |
| `ServerCore.Server.AddRoute` | tests/server_tests.cpp:12-45 | stand-in for `route()`: the route is appended to the table and nothing else changes |
| `ServerCore.Server.HandleClient` | src/net/server.cpp:105-139 | with `n <= 0` nothing is sent; otherwise the text sent is the response written for the route chosen for the parsed request |
| `ServerCore.Server.Stop` | src/net/server.cpp:229-242 | `stop` clears the running flag, sets the socket as `Stopped` does, and keeps the routes |
| `ClientCore.SerializeRequest` | src/net/client_impl.cpp:44-55 | the text is METHOD + " " + full_path + " HTTP/1.1\r\n" + "Host: " + host + "\r\n", the header lines in map order, "\r\n" and the body |
| `ClientCore.DeliveredSum` | src/net/client_impl.cpp:56-65 | the send loop succeeds exactly when positive counts, before the first count <= 0, add up to the request's length |
| `ClientCore.SendText` | src/net/client_impl.cpp:56-65 | the send loop succeeds exactly when the text is delivered; otherwise "Failed to send request" |
| `ClientCore.SendRequest` | src/net/client_impl.cpp:43-66 | `send_request` succeeds exactly when the serialised request is delivered |
| `ClientCore.StatusOf` | src/net/client_impl.cpp:87-95 | with no version word the code stays 0 and the text empty |
| `ClientCore.ReadHead` | src/net/client_impl.cpp:83-108 | the status line and the header loop compute `HeadOf` |
| `ClientCore.LengthOf` | src/net/client_impl.cpp:111-114 | the content length is 0 without a Content-Length, otherwise what `std::stoull` reads from it (the decimal value for a digit string); always below 2^64 |
| `ClientCore.FramedBodyBound` | src/net/client_impl.cpp:121-135 | the body is a prefix of the bytes after the headers: at most L of them and exactly L when L arrived; all of them when L is 0 or absent, or when the stream ends before L bytes; empty when chunked |
| `ClientCore.ResponseOf` | src/net/client_impl.cpp:68-137 | "Failed to parse response headers" exactly when "\r\n\r\n" occurs nowhere in the stream |
| `ClientCore.AwaitHead` | src/net/client_impl.cpp:75-82 | chunks are appended until the buffer holds "\r\n\r\n" or the stream ends |
| `ClientCore.TakeHead` | src/net/client_impl.cpp:109-118 | the head is read from the text before "\r\n\r\n", the buffer keeps what follows, and Content-Length and chunked are looked up |
| `ClientCore.AwaitBody` | src/net/client_impl.cpp:121-126 | the loop stops at the end of the stream, or once L > 0 body bytes are buffered for a response that is not chunked |
| `ClientCore.ReadResponse` | src/net/client_impl.cpp:68-137 | `read_response` over any chunking of the stream computes `ResponseOf` of the whole stream |
| `ClientCore.ExchangeOf` | src/net/client_impl.cpp:139-165 | a connect error is passed on; a failed send gives "Failed to send request"; otherwise the response read |
| `ClientCore.Exchange` | src/net/client_impl.cpp:139-165 | the task of `async_send` computes `ExchangeOf` |
| `ClientCore.Get` | src/net/client_impl.cpp:172-180 | `URL::parse` as written: an unparseable URL gives its parse error before any socket operation; otherwise a GET for the parsed URL with the default headers is exchanged |
| `ClientCore.Post` | src/net/client_impl.cpp:182-193 | as `get`, with a POST whose body is set by `set_body`, which adds Content-Length |
| `RoundTrip.RequestReadBack` | src/net/server.cpp:18-60 | a request written by `send_request` is read by `parse_request` as the same method, path, query without '?', headers plus the Host line, and body less one final '\n' |
| `RoundTrip.FirstHeaderEnd` | src/net/client_impl.cpp:81 | in a response written by `build_response`, the first "\r\n\r\n" is the one that ends the headers |
| `RoundTrip.StatusRead` | src/net/client_impl.cpp:87-95 | the written status line reads back as its code and reason phrase, with a following '\r' kept |
| `RoundTrip.BuiltResponseFramed` | src/net/response_impl.cpp:4-8 | the Content-Length of `Response(code, body)` is read by the client's `std::stoull` as the body's size, and the framed body is exactly the body |
| `RoundTrip.ResponseReadBack` | src/net/server.cpp:62-97 | a response written by `build_response` is read by `read_response` as the same code, headers and framed body; the reason phrase keeps a '\r' when headers follow |

## Findings

| source | as written | input that shows it | evidently intended | confidence | as-written member | corrected member |
|---|---|---|---|---|---|---|
| src/net/url.cpp:45-47 | when the first '/' after the scheme comes after the first '?', `path_end - path_start` wraps around as `size_t`, so the path runs from that '/' to the end of the string and repeats the tail of the query | "http://example.com?next=/home" gives path "/home" and query "?next=/home" | a '/' inside the query does not start a path: path "/", query "?next=/home" (as for "http://example.com?query=value") | not executed; derived from the code's arithmetic | `Urls.QuirkExample` | `Urls.ParseFixedWithoutPath` |

## Left out

- Socket calls (`socket`, `bind`, `listen`, `accept`, `recv`, `send`, `shutdown`, `close`, `getaddrinfo`, WSA start-up) and `Client::connect_socket`. These are I/O. Their outcomes are parameters: the connect result, the `send` counts and the `recv` chunks.
- `Server::start` and `Server::run`. These are socket set-up and an errno-driven accept loop with sleeps.
- Threads, futures and atomics. This covers the detached per-connection threads, `std::async`/`std::promise` and the atomic running flag. `Client::send` only waits on `async_send`'s future, and `ClientCore.Exchange` is that task run in sequence.
- `ClientCore.SendText`: a call beyond the listed counts counts as a failed send. A count larger than the bytes offered cannot occur, because POSIX `send` never reports more than it was given.
- `ClientCore.ReadResponse`: requires a Content-Length that is absent or one `std::stoull` reads: white space, an optional sign, at least one digit with a value below 2^64, then anything. `std::stoull` throws `std::invalid_argument` when no digit follows the white space and sign, and `std::out_of_range` for 2^64 or more; those exceptions are not modelled. The same requirement stands on `ClientCore.LengthOf`, `ClientCore.FramedBody`, `ClientCore.ResponseOf`, `ClientCore.Exchange`, `ClientCore.Get` and `ClientCore.Post`.
- `handle_client`'s buffer handling: the single 8192-byte `recv` and the NUL-terminated copy. `HandleClient` takes the received count and text as given.
- `Text.Lower`: ASCII lower-casing. Locale-dependent `::tolower` is not modelled.
- `Urls.Parse`: strings are taken to be shorter than 2^63. That keeps the wrapped `path_end - path_start` above the string's length.
- The unused `Request::timeout` field.
- `string_to_method`, `ServerRequest`, `Route`, `ServerConfig`, `route()` and `core/result.h` are not part of this model. `Methods.StringToMethod`, `ServerCore.ServerRequest`, `ServerCore.Route`, `ServerCore.ServerConfig`, `ServerCore.Server.AddRoute` and `Results.Result` are minimal stand-ins. A route's handler is a function value that returns a response or throws, and a thrown exception is the `Throws(what)` value.
- The route-matching `is_regex` flag. Matching is by exact method and path only.
- tests/integration_tests.cpp. It depends on a live network host.
