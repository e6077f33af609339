/** `http::Response` (include/net/http.h, src/net/response_impl.cpp): a status
    code, a status text, a header map and a body. `ResponseData` is the value
    a response holds, used where responses are passed and returned by value. */
module Responses {
  import opened Text
  import opened Streams
  import opened HeaderMap

  datatype ResponseData = ResponseData(statusCode: Int32, statusText: string, headers: HeaderData, body: string)

  /** `Response::is_success`: a 2xx status code. */
  predicate IsSuccessCode(code: int) {
    200 <= code < 300
  }

  /** The response `Response(code, body)` builds. */
  function NewResponse(code: Int32, body: string): (r: ResponseData)
    ensures r.statusCode == code && r.body == body && r.statusText == ""
    ensures r.headers.Keys == {"content-length", "content-type"}
    ensures Get(r.headers, "Content-Length") == NatToString(|body|)
    ensures Get(r.headers, "Content-Type") == "text/plain"
    ensures CanonicalKeys(r.headers)
  {
    assert Lower("Content-Length") == "content-length" && Lower("Content-Type") == "content-type";
    ResponseData(code, "", Put(Put(map[], "Content-Length", NatToString(|body|)), "Content-Type", "text/plain"), body)
  }

  /** A built response's Content-Length reads back as the size of its body,
      "0" for an empty one. */
  lemma {:induction false} NewResponseLength(code: Int32, body: string)
    ensures DecimalValue(Get(NewResponse(code, body).headers, "content-length")) == |body|
    ensures body == [] ==> Get(NewResponse(code, body).headers, "content-length") == "0"
  {
    assert Lower("content-length") == "content-length";
    DecimalRoundTrip(|body|);
  }

  /** `Response(200, "Hello World")` announces a Content-Length of "11" and
      is a success; 404 and 500 responses are not. */
  lemma {:induction false} HelloWorldExample()
    ensures Get(NewResponse(200, "Hello World").headers, "Content-Length") == "11"
    ensures IsSuccessCode(NewResponse(200, "Hello World").statusCode)
    ensures !IsSuccessCode(NewResponse(404, "Not Found").statusCode)
    ensures !IsSuccessCode(NewResponse(500, "Error").statusCode)
  {
    assert |"Hello World"| == 11;
    assert NatToString(11) == NatToString(1) + [DigitChar(1)];
  }

  class Response {
    var statusCode: Int32
    var statusText: string
    const headers: Headers
    var body: string

    ghost predicate Valid()
      reads this, headers
    {
      headers.Valid()
    }

    /** The value this response holds. */
    function Data(): ResponseData
      reads this, headers
    {
      ResponseData(statusCode, statusText, headers.data, body)
    }

    /** `Response() = default`. */
    constructor Empty()
      ensures Valid() && fresh(headers)
      ensures Data() == ResponseData(0, "", map[], "")
    {
      statusCode := 0;
      statusText := "";
      headers := new Headers();
      body := "";
    }

    /** `Response(code, body_content)`. */
    constructor (code: Int32, bodyContent: string)
      ensures Valid() && fresh(headers)
      ensures Data() == NewResponse(code, bodyContent)
    {
      var h := new Headers();
      h.Set("Content-Length", NatToString(|bodyContent|));
      h.Set("Content-Type", "text/plain");
      statusCode := code;
      statusText := "";
      headers := h;
      body := bodyContent;
    }

    /** `is_success`. */
    function IsSuccess(): (b: bool)
      reads this
      ensures b <==> IsSuccessCode(statusCode)
      ensures b ==> statusCode / 100 == 2
    {
      200 <= statusCode < 300
    }
  }
}
