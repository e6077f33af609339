/** `http::Request` (include/net/http.h, src/net/request.cpp): a method, a
    URL, a header map and a body. The constructor puts a user agent and an
    accept header in when the URL names a host; `set_body` stores the body and
    adds a Content-Length header unless one is already there. */
module Requests {
  import opened Text
  import opened Urls
  import opened Methods
  import opened HeaderMap

  /** The headers a new request starts with. */
  function DefaultHeaders(u: Url): (h: HeaderData)
    ensures u.host == "" ==> h == map[]
    ensures u.host != "" ==> h.Keys == {"user-agent", "accept"}
    ensures u.host != "" ==> Get(h, "User-Agent") == "cpp-http/1.0" && Get(h, "Accept") == "*/*"
    ensures CanonicalKeys(h)
  {
    if u.host == "" then map[]
    else
      assert Lower("User-Agent") == "user-agent" && Lower("Accept") == "accept";
      Put(Put(map[], "User-Agent", "cpp-http/1.0"), "Accept", "*/*")
  }

  /** The headers after `set_body(d)`: a Content-Length holding the decimal
      size of `d` is added when none is present; nothing else changes. */
  function WithContentLength(h: HeaderData, d: string): (r: HeaderData)
    ensures Has(h, "Content-Length") ==> r == h
    ensures !Has(h, "Content-Length") ==>
              r.Keys == h.Keys + {"content-length"} && Get(r, "Content-Length") == NatToString(|d|)
    ensures forall k :: Lower(k) != "content-length" ==> Has(r, k) == Has(h, k) && Get(r, k) == Get(h, k)
    ensures CanonicalKeys(h) ==> CanonicalKeys(r)
  {
    assert Lower("Content-Length") == "content-length";
    if Has(h, "Content-Length") then h else Put(h, "Content-Length", NatToString(|d|))
  }

  /** An added Content-Length reads back, as `std::stoull` would, as the size
      of the body. */
  lemma {:induction false} ContentLengthValue(h: HeaderData, d: string)
    requires !Has(h, "Content-Length")
    ensures IsDigits(Get(WithContentLength(h, d), "content-length"))
    ensures DecimalValue(Get(WithContentLength(h, d), "content-length")) == |d|
  {
    assert Lower("content-length") == Lower("Content-Length");
    DecimalRoundTrip(|d|);
  }

  /** Once a Content-Length is present no later `set_body` touches it: a
      second `set_body` keeps the length of the first body. */
  lemma {:induction false} ContentLengthKept(h: HeaderData, d1: string, d2: string)
    ensures WithContentLength(WithContentLength(h, d1), d2) == WithContentLength(h, d1)
  {
    assert Lower("Content-Length") == "content-length";
  }

  /** A new request for a URL with a host, given the body "test body
      content", announces a Content-Length of "17". */
  lemma {:induction false} SetBodyExample(u: Url)
    requires u.host != ""
    ensures Get(WithContentLength(DefaultHeaders(u), "test body content"), "Content-Length") == "17"
  {
    assert |"test body content"| == 17;
    assert NatToString(17) == NatToString(1) + [DigitChar(7)];
    assert Lower("Content-Length") == "content-length";
    assert "content-length" !in DefaultHeaders(u);
  }

  class Request {
    var verb: Method
    var url: Url
    const headers: Headers
    var body: string

    ghost predicate Valid()
      reads this, headers
    {
      headers.Valid()
    }

    /** `Request(m, u)`; `verb` is the `method` field. */
    constructor (m: Method, u: Url)
      ensures Valid() && fresh(headers)
      ensures verb == m && url == u && body == ""
      ensures headers.data == DefaultHeaders(u)
    {
      var h := new Headers();
      if u.host != "" {
        h.Set("User-Agent", "cpp-http/1.0");
        h.Set("Accept", "*/*");
      }
      verb := m;
      url := u;
      headers := h;
      body := "";
    }

    /** `set_header`: the same as `headers.set`. */
    method SetHeader(key: string, value: string)
      requires Valid()
      modifies headers
      ensures Valid()
      ensures headers.data == Put(old(headers.data), key, value)
    {
      headers.Set(key, value);
    }

    /** `set_body`. */
    method SetBody(d: string)
      requires Valid()
      modifies this, headers
      ensures Valid()
      ensures body == d && headers.data == WithContentLength(old(headers.data), d)
      ensures verb == old(verb) && url == old(url)
    {
      body := d;
      if !Has(headers.data, "Content-Length") {
        headers.Set("Content-Length", NatToString(|body|));
      }
    }
  }
}
