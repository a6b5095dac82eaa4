/**
 * The buffered ResponseWriter: a handler writes status, headers and body
 * into it, and Response() turns what it holds into the API Gateway proxy
 * response, base64-encoding the body when a header marks it binary.
 */
module Responses {
  import opened Results
  import opened GoStrings
  import opened TextProto
  import opened Headers
  import opened Classify
  import Base64

  // ---------------------------------------------------------------- API type

  /** APIType is an int; these are its two named values. */
  const REST: int := 0
  const HTTP: int := 1

  /** APIType.String. */
  function APITypeName(a: int): (s: string)
    ensures a == REST <==> s == "REST"
    ensures a == HTTP <==> s == "HTTP"
    ensures a != REST && a != HTTP <==> s == "UNKNOWN"
  {
    if a == REST then "REST" else if a == HTTP then "HTTP" else "UNKNOWN"
  }

  // ---------------------------------------------------------------- the writer

  /** The writer's state: the buffered body, the header map, the status code and the API type. */
  datatype Writer = Writer(buffer: seq<byte>, header: Header, statusCode: int, apiType: int)

  /**
   * NewResponseWriter: any API type but REST and HTTP panics with
   * "invalid apiType: " and the type's name; the panic is the Failure.
   */
  function NewResponseWriter(apiType: int): (r: Result<Writer, string>)
    ensures r.Success? <==> apiType == REST || apiType == HTTP
    ensures r.Success? ==> r.value == Writer([], map[], 200, apiType)
    ensures r.Failure? ==> r.error == "invalid apiType: UNKNOWN"
  {
    if apiType != REST && apiType != HTTP then Failure("invalid apiType: " + APITypeName(apiType))
    else Success(Writer([], map[], 200, apiType))
  }

  /** What a handler can do to a ResponseWriter. */
  datatype Action =
    | Write(data: seq<byte>)
    | WriteHeader(code: int)
    | AddHeader(key: string, value: string)
    | SetHeader(key: string, value: string)
    | DelHeader(key: string)

  /** One action: Write appends to the buffer, WriteHeader overwrites the status, the rest edit the header. */
  function Step(w: Writer, a: Action): (w': Writer)
    ensures w'.apiType == w.apiType
    ensures a.Write? ==> w'.buffer == w.buffer + a.data
    ensures !a.Write? ==> w'.buffer == w.buffer
    ensures a.WriteHeader? ==> w'.statusCode == a.code
    ensures !a.WriteHeader? ==> w'.statusCode == w.statusCode
    ensures a.Write? || a.WriteHeader? ==> w'.header == w.header
  {
    match a
    case Write(data) => w.(buffer := w.buffer + data)
    case WriteHeader(code) => w.(statusCode := code)
    case AddHeader(k, v) => w.(header := Add(w.header, k, v))
    case SetHeader(k, v) => w.(header := Set(w.header, k, v))
    case DelHeader(k) => w.(header := Del(w.header, k))
  }

  /** A handler's actions, in order. */
  function Run(w: Writer, acts: seq<Action>): Writer
    decreases |acts|
  {
    if |acts| == 0 then w else Run(Step(w, acts[0]), acts[1..])
  }

  /** Everything the actions wrote, in order. */
  function Written(acts: seq<Action>): seq<byte>
    decreases |acts|
  {
    if |acts| == 0 then []
    else (if acts[0].Write? then acts[0].data else []) + Written(acts[1..])
  }

  /** The code of the last WriteHeader among the actions, or `initial` when there is none. */
  function LastStatus(acts: seq<Action>, initial: int): int
    decreases |acts|
  {
    if |acts| == 0 then initial
    else if acts[|acts| - 1].WriteHeader? then acts[|acts| - 1].code
    else LastStatus(acts[..|acts| - 1], initial)
  }

  /** Running one more action is one more Step. */
  lemma {:induction false} RunSnoc(w: Writer, acts: seq<Action>, a: Action)
    ensures Run(w, acts + [a]) == Step(Run(w, acts), a)
    decreases |acts|
  {
    if |acts| > 0 {
      assert (acts + [a])[1..] == acts[1..] + [a];
      RunSnoc(Step(w, acts[0]), acts[1..], a);
    }
  }

  /** The buffer ends up holding everything written, in order. */
  lemma {:induction false} RunBuffer(w: Writer, acts: seq<Action>)
    ensures Run(w, acts).buffer == w.buffer + Written(acts)
    decreases |acts|
  {
    if |acts| > 0 {
      RunBuffer(Step(w, acts[0]), acts[1..]);
      assert Step(w, acts[0]).buffer == w.buffer + (if acts[0].Write? then acts[0].data else []);
    }
  }

  /** The status is the code of the last WriteHeader, and stays where it was without one. */
  lemma {:induction false} RunStatus(w: Writer, acts: seq<Action>)
    ensures Run(w, acts).statusCode == LastStatus(acts, w.statusCode)
    decreases |acts|
  {
    if |acts| > 0 {
      var init := acts[..|acts| - 1];
      var a := acts[|acts| - 1];
      assert acts == init + [a];
      RunSnoc(w, init, a);
      RunStatus(w, init);
    }
  }

  /** A fresh writer answers 200 unless the handler called WriteHeader. */
  lemma DefaultStatus(apiType: int, acts: seq<Action>)
    requires apiType == REST || apiType == HTTP
    ensures Run(NewResponseWriter(apiType).value, acts).statusCode == LastStatus(acts, 200)
    ensures Run(NewResponseWriter(apiType).value, acts).buffer == Written(acts)
  {
    RunStatus(NewResponseWriter(apiType).value, acts);
    RunBuffer(NewResponseWriter(apiType).value, acts);
  }

  // ---------------------------------------------------------------- Response()

  /** The API Gateway proxy response. */
  datatype Response = Response(
    statusCode: int,
    headers: map<string, string>,
    multiValueHeaders: Header,
    cookies: seq<string>,
    body: seq<byte>,
    isBase64Encoded: bool)

  /** The header with DefaultContentType set when Content-Type is missing or empty; nothing else changes. */
  function WithContentType(cfg: Config, h: Header): (r: Header)
    ensures r.Keys == h.Keys + {"Content-Type"}
    ensures Get(h, "Content-Type") == "" ==> Get(r, "Content-Type") == cfg.defaultContentType
    ensures Get(h, "Content-Type") != "" ==> r == h
    ensures forall k :: k in h && k != "Content-Type" ==> r[k] == h[k]
  {
    KnownKeysCanonical();
    if Get(h, "Content-Type") == "" then Set(h, "Content-Type", cfg.defaultContentType) else h
  }

  /** The single-valued view: every key with its first value. */
  function SingleValues(h: Header): (m: map<string, string>)
    ensures m.Keys == h.Keys
    ensures forall k :: k in m ==> m[k] == Get(h, k)
  {
    map k | k in h :: Get(h, k)
  }

  /** The cookies field: none for a REST API, every Set-Cookie value otherwise. */
  function CookiesFor(apiType: int, h: Header): (c: seq<string>)
    ensures apiType == REST ==> c == []
    ensures apiType != REST ==> c == Values(h, "Set-Cookie")
  {
    if apiType == REST then [] else Values(h, "Set-Cookie")
  }

  /** The body field: base64 text of the buffered bytes when `encoded`, else the bytes themselves. */
  function BodyField(b: seq<byte>, encoded: bool): (s: seq<byte>)
    ensures encoded ==> Base64.Decode(s) == Some(b)
    ensures !encoded ==> s == b
  {
    Base64.DecodeEncode(b);
    if encoded then Base64.Encode(b) else b
  }

  /**
   * ResponseWriter.Response. The header gains the default Content-Type if
   * it had none; `headers` holds the first value of every key; the body is
   * base64-encoded exactly when some header marks it binary; cookies are
   * copied out for HTTP APIs while Set-Cookie stays in the header.
   */
  function ToResponse(cfg: Config, w: Writer): (r: Response)
    ensures r.statusCode == w.statusCode
    ensures r.multiValueHeaders == WithContentType(cfg, w.header)
    ensures r.headers == SingleValues(r.multiValueHeaders)
    ensures r.isBase64Encoded <==> exists k :: k in r.headers && IsBinary(cfg, k, r.headers[k])
    ensures r.body == BodyField(w.buffer, r.isBase64Encoded)
    ensures r.cookies == CookiesFor(w.apiType, r.multiValueHeaders)
  {
    var h := WithContentType(cfg, w.header);
    var single := SingleValues(h);
    var binary := exists k :: k in single && IsBinary(cfg, k, single[k]);
    Response(w.statusCode, single, h, CookiesFor(w.apiType, h), BodyField(w.buffer, binary), binary)
  }

  /**
   * The header fields of the response: every key the handler set, plus
   * Content-Type; the handler's Content-Type or else the default; every
   * other key untouched, Set-Cookie included; the first value of each in
   * `headers`; and the cookies field for HTTP APIs holding exactly the
   * Set-Cookie values.
   */
  lemma ResponseHeaders(cfg: Config, w: Writer)
    ensures var r := ToResponse(cfg, w);
      && r.multiValueHeaders.Keys == w.header.Keys + {"Content-Type"}
      && (forall k :: k in w.header && k != "Content-Type" ==> r.multiValueHeaders[k] == w.header[k])
      && Get(r.multiValueHeaders, "Content-Type") ==
           (if Get(w.header, "Content-Type") == "" then cfg.defaultContentType else Get(w.header, "Content-Type"))
      && r.headers.Keys == r.multiValueHeaders.Keys
      && (forall k :: k in r.headers ==> r.headers[k] == Get(r.multiValueHeaders, k))
      && Values(r.multiValueHeaders, "Set-Cookie") == Values(w.header, "Set-Cookie")
      && r.cookies == (if w.apiType == REST then [] else Values(w.header, "Set-Cookie"))
  {
    KnownKeysCanonical();
    var h := WithContentType(cfg, w.header);
    assert Values(h, "Set-Cookie") == Values(w.header, "Set-Cookie");
  }

  /**
   * With the default settings, a handler that set neither a Content-Type
   * nor a gzip Content-Encoding gets its body back verbatim: the default
   * Content-Type is text.
   */
  lemma DefaultResponseIsText(w: Writer)
    requires Get(w.header, "Content-Type") == "" && Get(w.header, "Content-Encoding") != "gzip"
    ensures !ToResponse(Defaults(), w).isBase64Encoded
    ensures ToResponse(Defaults(), w).body == w.buffer
  {
    KnownKeysCanonical();
    DefaultContentTypeIsText();
    var r := ToResponse(Defaults(), w);
    var h := r.multiValueHeaders;
    ResponseHeaders(Defaults(), w);
    forall k | k in r.headers ensures !IsBinary(Defaults(), k, r.headers[k]) {
      if k == "Content-Encoding" {
        assert Get(h, k) == Get(w.header, k);
      }
    }
  }

  /** A Content-Type the handler set that is not text makes the body base64. */
  lemma BinaryContentTypeEncodes(cfg: Config, w: Writer)
    requires Get(w.header, "Content-Type") != ""
    requires IsBinary(cfg, "Content-Type", Get(w.header, "Content-Type"))
    ensures ToResponse(cfg, w).isBase64Encoded
    ensures Base64.Decode(ToResponse(cfg, w).body) == Some(w.buffer)
  {
    KnownKeysCanonical();
    var r := ToResponse(cfg, w);
    assert "Content-Type" in r.headers;
  }

  /** A gzip Content-Encoding makes the body base64, whatever the Content-Type. */
  lemma GzipEncodes(cfg: Config, w: Writer)
    requires Get(w.header, "Content-Encoding") == "gzip"
    ensures ToResponse(cfg, w).isBase64Encoded
    ensures Base64.Decode(ToResponse(cfg, w).body) == Some(w.buffer)
  {
    KnownKeysCanonical();
    var r := ToResponse(cfg, w);
    ResponseHeaders(cfg, w);
    assert "Content-Encoding" in w.header;
    assert r.headers["Content-Encoding"] == "gzip";
  }

  /** A PNG response is sent as base64 under the default settings. */
  lemma PngResponseEncodes(w: Writer)
    requires Get(w.header, "Content-Type") == "image/png"
    ensures ToResponse(Defaults(), w).isBase64Encoded
  {
    PngIsBinary();
    BinaryContentTypeEncodes(Defaults(), w);
  }
}
