/**
 * Inbound translation: an API Gateway / Function URL event (payload format
 * 1.0 or 2.0) becomes a net/http request, and back (ToRequestV1,
 * ToRequestV2). The JSON decoding of the event is not modelled: an Event
 * carries the three json.Unmarshal outcomes NewRequest may ask for.
 */
module Requests {
  import opened Results
  import opened GoStrings
  import opened TextProto
  import opened Headers
  import Url
  import Base64
  import opened KeyOrder

  // ---------------------------------------------------------------- envelopes

  /** The fields of a 1.0 request context the translator reads. */
  datatype RequestContextV1 = RequestContextV1(httpMethod: string, identity: map<string, string>)

  /** Payload format 1.0 (REST API and HTTP API 1.0), as far as the translator reads it. */
  datatype RequestV1 = RequestV1(
    version: string,
    body: seq<byte>,
    headers: map<string, string>,
    multiValueHeaders: map<string, seq<string>>,
    httpMethod: string,
    path: string,
    queryStringParameters: map<string, string>,
    multiValueQueryStringParameters: map<string, seq<string>>,
    requestContext: RequestContextV1,
    isBase64Encoded: bool)

  /** requestContext.http of payload format 2.0. */
  datatype HTTPContext = HTTPContext(httpMethod: string, path: string, protocol: string, sourceIp: string)

  datatype RequestContextV2 = RequestContextV2(http: HTTPContext)

  /** Payload format 2.0 (HTTP API 2.0, Function URLs), as far as the translator reads it. */
  datatype RequestV2 = RequestV2(
    version: string,
    rawPath: string,
    rawQueryString: string,
    cookies: seq<string>,
    headers: map<string, string>,
    queryStringParameters: map<string, string>,
    requestContext: RequestContextV2,
    body: seq<byte>,
    isBase64Encoded: bool)

  /** The fields of *http.Request the translators set; a nil URL is None. */
  datatype HttpRequest = HttpRequest(
    httpMethod: string,
    proto: string,
    protoMajor: int,
    protoMinor: int,
    header: Header,
    contentLength: int,
    body: seq<byte>,
    remoteAddr: string,
    host: string,
    requestURI: string,
    url: Option<Url.URL>)

  /**
   * An inbound event: the outcome of unmarshalling its "version" field,
   * and of unmarshalling the whole event as each payload format (the
   * error text json.Unmarshal would give on failure).
   */
  datatype Event = Event(
    version: Result<string, string>,
    asV1: Result<RequestV1, string>,
    asV2: Result<RequestV2, string>)

  /** Every error NewRequest can return. */
  datatype Error =
    | Json(detail: string)
    | UnsupportedVersion(version: string)
    | CorruptBase64
    | EmptyMethod
    | NilUrl
    | EmptyPath

  /** The error's text, as the source formats it. */
  function Message(e: Error): string {
    match e
    case Json(detail) => detail
    case UnsupportedVersion(v) => "payload Version " + v + " is not supported"
    case CorruptBase64 => "illegal base64 data at input byte"
    case EmptyMethod => "http method is empty"
    case NilUrl => "url is nil"
    case EmptyPath => "url path is empty"
  }

  // ---------------------------------------------------------------- shared steps

  /** The envelope body: base64-decoded when the envelope says so, else verbatim. */
  function DecodeBody(body: seq<byte>, isBase64: bool): (r: Result<seq<byte>, Error>)
    ensures !isBase64 ==> r == Success(body)
    ensures isBase64 ==> (r.Success? <==> Base64.WellFormed(Base64.StripNewlines(body)))
    ensures isBase64 && r.Failure? ==> r.error == CorruptBase64
  {
    Base64.DecodeSucceedsIffWellFormed(body);
    if !isBase64 then Success(body)
    else match Base64.Decode(body)
      case None => Failure(CorruptBase64)
      case Some(b) => Success(b)
  }

  /** What ToRequestV1/ToRequestV2 put in the envelope decodes back to the bytes they read. */
  lemma DecodeBodyOfEncoded(b: seq<byte>)
    ensures DecodeBody(if |b| > 0 then Base64.Encode(b) else [], |b| > 0) == Success(b)
  {
    if |b| > 0 {
      Base64.DecodeEncode(b);
    }
  }

  /**
   * validateRequest: a request is accepted exactly when it has a method,
   * a URL and a non-empty path; the checks run in that order, so the
   * first one that fails names the error.
   */
  function Validate(req: HttpRequest): (r: Result<HttpRequest, Error>)
    ensures r.Success? <==> req.httpMethod != "" && req.url.Some? && req.url.value.path != ""
    ensures r.Success? ==> r.value == req
    ensures req.httpMethod == "" ==> r == Failure(EmptyMethod)
    ensures req.httpMethod != "" && req.url.None? ==> r == Failure(NilUrl)
    ensures req.httpMethod != "" && req.url.Some? && req.url.value.path == "" ==> r == Failure(EmptyPath)
  {
    if req.httpMethod == "" then Failure(EmptyMethod)
    else if req.url.None? then Failure(NilUrl)
    else if req.url.value.path == "" then Failure(EmptyPath)
    else Success(req)
  }

  /** Validation is a fixed point: a request it accepts passes it again unchanged. */
  lemma ValidateIdempotent(req: HttpRequest)
    requires Validate(req).Success?
    ensures Validate(Validate(req).value) == Validate(req)
  {
  }

  // ---------------------------------------------------------------- payload format 1.0

  /** The header a 1.0 envelope yields: multiValueHeaders when it has any key, else headers. */
  function V1Header(ev: RequestV1): Header {
    if |ev.multiValueHeaders| > 0 then FromMulti(ev.multiValueHeaders) else FromSingle(ev.headers)
  }

  /**
   * The query values a 1.0 envelope yields: the multi-valued map when it
   * has any key (keys without a value vanish, as url.Values.Add never
   * creates them), else one value per single-valued key.
   */
  function V1Query(ev: RequestV1): (v: Url.Values)
    ensures Url.AllNonEmpty(v)
    ensures |ev.multiValueQueryStringParameters| > 0 ==>
      && (forall k :: k in v <==> k in ev.multiValueQueryStringParameters && |ev.multiValueQueryStringParameters[k]| > 0)
      && (forall k :: k in v ==> v[k] == ev.multiValueQueryStringParameters[k])
    ensures |ev.multiValueQueryStringParameters| == 0 ==>
      && (forall k :: k in v <==> k in ev.queryStringParameters)
      && (forall k :: k in v ==> v[k] == [ev.queryStringParameters[k]])
  {
    if |ev.multiValueQueryStringParameters| > 0 then NonEmpty(ev.multiValueQueryStringParameters)
    else map k | k in ev.queryStringParameters :: [ev.queryStringParameters[k]]
  }

  /**
   * The request URI: the path, followed by "?" and the encoded query only
   * when the single-valued queryStringParameters is non-empty, even when
   * the query values came from the multi-valued map.
   */
  function V1RequestURI(ev: RequestV1): (uri: string)
    ensures |ev.queryStringParameters| == 0 ==> uri == ev.path
    ensures |ev.queryStringParameters| > 0 ==> uri == ev.path + "?" + Url.Encode(V1Query(ev))
  {
    if |ev.queryStringParameters| > 0 then ev.path + "?" + Url.Encode(V1Query(ev)) else ev.path
  }

  /** identity["sourceIp"], or "" when the identity map does not hold it. */
  function SourceIp(identity: map<string, string>): string {
    if "sourceIp" in identity then identity["sourceIp"] else ""
  }

  /**
   * RequestV1.httpRequest: the body is decoded first, then the request is
   * built (Host taken out of the header into its own field, protocol
   * HTTP/1.1) and validated.
   */
  function V1HttpRequest(ev: RequestV1): (r: Result<HttpRequest, Error>)
    ensures r.Success? <==>
      && DecodeBody(ev.body, ev.isBase64Encoded).Success?
      && ev.httpMethod != ""
      && Url.Parse(V1RequestURI(ev)).Some?
      && Url.Parse(V1RequestURI(ev)).value.path != ""
    ensures DecodeBody(ev.body, ev.isBase64Encoded).Failure? ==> r == Failure(CorruptBase64)
    ensures DecodeBody(ev.body, ev.isBase64Encoded).Success? && ev.httpMethod == "" ==> r == Failure(EmptyMethod)
    ensures r.Success? ==>
      && r.value.httpMethod == ev.httpMethod
      && r.value.proto == "HTTP/1.1" && r.value.protoMajor == 1 && r.value.protoMinor == 1
      && r.value.body == DecodeBody(ev.body, ev.isBase64Encoded).value
      && r.value.contentLength == |r.value.body|
      && r.value.host == Get(V1Header(ev), "Host")
      && "Host" !in r.value.header && CanonicalKeys(r.value.header)
      && r.value.header == Del(V1Header(ev), "Host")
      && r.value.remoteAddr == SourceIp(ev.requestContext.identity)
      && r.value.requestURI == V1RequestURI(ev)
      && r.value.url == Url.Parse(V1RequestURI(ev))
  {
    KnownKeysCanonical();
    var h := V1Header(ev);
    var uri := V1RequestURI(ev);
    match DecodeBody(ev.body, ev.isBase64Encoded)
    case Failure(e) => Failure(e)
    case Success(b) =>
      Validate(HttpRequest(ev.httpMethod, "HTTP/1.1", 1, 1, Del(h, "Host"), |b|, b,
                           SourceIp(ev.requestContext.identity), Get(h, "Host"), uri, Url.Parse(uri)))
  }

  // ---------------------------------------------------------------- payload format 2.0

  /** A protocol whose sixth character is not '2' does not start with "HTTP/2". */
  lemma NotHttp2(s: string)
    requires |s| > 5 && s[5] != '2'
    ensures !HasPrefix(s, "HTTP/2")
  {
    if |s| >= 6 {
      assert s[..6][5] == s[5];
    }
  }

  /**
   * parseHTTPProtocol: HTTP/1.0 and HTTP/1.1 exactly, any protocol
   * starting with "HTTP/2" as 2.0, and (0, 0) for everything else.
   */
  function ParseHTTPProtocol(s: string): (r: (int, int))
    ensures s == "HTTP/1.0" <==> r == (1, 0)
    ensures s == "HTTP/1.1" <==> r == (1, 1)
    ensures HasPrefix(s, "HTTP/2") <==> r == (2, 0)
    ensures r == (0, 0) <==> s != "HTTP/1.0" && s != "HTTP/1.1" && !HasPrefix(s, "HTTP/2")
  {
    NotHttp2("HTTP/1.0");
    NotHttp2("HTTP/1.1");
    if s == "HTTP/1.0" then (1, 0)
    else if s == "HTTP/1.1" then (1, 1)
    else if HasPrefix(s, "HTTP/2") then (2, 0)
    else (0, 0)
  }

  /** The decimal digit of a number below ten. */
  function Digit(n: nat): char
    requires n < 10
  {
    ('0' as int + n) as char
  }

  /** The protocol string "HTTP/major.minor" of a one-digit version. */
  function ProtoName(major: nat, minor: nat): string
    requires major < 10 && minor < 10
  {
    "HTTP/" + [Digit(major)] + "." + [Digit(minor)]
  }

  /**
   * parseHTTPProtocol read against the version it names: HTTP/1.0 and
   * HTTP/1.1 give their own numbers back, every HTTP/2.x gives (2, 0), and
   * every other well-formed version is unknown.
   */
  lemma ParseHTTPProtocolOfName(major: nat, minor: nat)
    requires major < 10 && minor < 10
    ensures ParseHTTPProtocol(ProtoName(major, minor)) ==
      if major == 1 && minor <= 1 then (major, minor)
      else if major == 2 then (2, 0)
      else (0, 0)
  {
  }

  /** Conversely, a protocol read as 1.x is the very string "HTTP/1.x". */
  lemma ParsedOneNamesItself(s: string)
    requires ParseHTTPProtocol(s).0 == 1
    ensures ParseHTTPProtocol(s).1 <= 1 && s == ProtoName(1, ParseHTTPProtocol(s).1)
  {
  }

  /** The request URI of a 2.0 envelope: rawPath, plus "?" and the raw query when there is one. */
  function V2RequestURI(ev: RequestV2): (uri: string)
    ensures ev.rawQueryString == "" ==> uri == ev.rawPath
    ensures ev.rawQueryString != "" ==> uri == ev.rawPath + "?" + ev.rawQueryString
  {
    if ev.rawQueryString != "" then ev.rawPath + "?" + ev.rawQueryString else ev.rawPath
  }

  /** The header a 2.0 envelope yields: its headers without Host, and the cookies joined into one Cookie line. */
  function V2Header(ev: RequestV2): (h: Header)
    ensures CanonicalKeys(h)
    ensures Values(h, "Cookie") ==
      Values(FromSingle(ev.headers), "Cookie") + (if |ev.cookies| > 0 then [Join(ev.cookies, "; ")] else [])
    ensures "Host" !in h
    ensures forall k :: k in h && k != "Cookie" ==> k in FromSingle(ev.headers) && h[k] == FromSingle(ev.headers)[k]
    ensures forall k :: k in FromSingle(ev.headers) && k != "Host" ==> k in h
  {
    KnownKeysCanonical();
    var h := Del(FromSingle(ev.headers), "Host");
    if |ev.cookies| > 0 then Add(h, "Cookie", Join(ev.cookies, "; ")) else h
  }

  /**
   * RequestV2.httpRequest: the body is decoded first, then the request is
   * built (protocol and source IP from requestContext.http) and validated.
   */
  function V2HttpRequest(ev: RequestV2): (r: Result<HttpRequest, Error>)
    ensures r.Success? <==>
      && DecodeBody(ev.body, ev.isBase64Encoded).Success?
      && ev.requestContext.http.httpMethod != ""
      && Url.Parse(V2RequestURI(ev)).Some?
      && Url.Parse(V2RequestURI(ev)).value.path != ""
    ensures DecodeBody(ev.body, ev.isBase64Encoded).Failure? ==> r == Failure(CorruptBase64)
    ensures DecodeBody(ev.body, ev.isBase64Encoded).Success? && ev.requestContext.http.httpMethod == "" ==>
      r == Failure(EmptyMethod)
    ensures r.Success? ==>
      && r.value.httpMethod == ev.requestContext.http.httpMethod
      && r.value.proto == ev.requestContext.http.protocol
      && (r.value.protoMajor, r.value.protoMinor) == ParseHTTPProtocol(ev.requestContext.http.protocol)
      && r.value.body == DecodeBody(ev.body, ev.isBase64Encoded).value
      && r.value.contentLength == |r.value.body|
      && r.value.host == Get(FromSingle(ev.headers), "Host")
      && r.value.header == V2Header(ev)
      && r.value.remoteAddr == ev.requestContext.http.sourceIp
      && r.value.requestURI == V2RequestURI(ev)
      && r.value.url == Url.Parse(V2RequestURI(ev))
  {
    var uri := V2RequestURI(ev);
    var proto := ev.requestContext.http.protocol;
    var (major, minor) := ParseHTTPProtocol(proto);
    match DecodeBody(ev.body, ev.isBase64Encoded)
    case Failure(e) => Failure(e)
    case Success(b) =>
      Validate(HttpRequest(ev.requestContext.http.httpMethod, proto, major, minor, V2Header(ev), |b|, b,
                           ev.requestContext.http.sourceIp, Get(FromSingle(ev.headers), "Host"), uri, Url.Parse(uri)))
  }

  // ---------------------------------------------------------------- dispatch

  /** The version NewRequest switches on: PayloadVersion when set, else the event's own (None when that fails to decode). */
  function EffectiveVersion(payloadVersion: string, ev: Event): (v: Option<string>)
    ensures payloadVersion != "" ==> v == Some(payloadVersion)
    ensures payloadVersion == "" ==> (v.Some? <==> ev.version.Success?)
    ensures payloadVersion == "" && ev.version.Success? ==> v == Some(ev.version.value)
  {
    if payloadVersion != "" then Some(payloadVersion)
    else if ev.version.Success? then Some(ev.version.value)
    else None
  }

  /**
   * NewRequest, with the package variable PayloadVersion as a parameter:
   * "2.0" selects the 2.0 translator, "1.0" and "" the 1.0 one, anything
   * else is refused by name.
   */
  function NewRequest(payloadVersion: string, ev: Event): (r: Result<HttpRequest, Error>)
    ensures EffectiveVersion(payloadVersion, ev).None? ==> r == Failure(Json(ev.version.error))
    ensures EffectiveVersion(payloadVersion, ev) == Some("2.0") ==>
      r == (if ev.asV2.Success? then V2HttpRequest(ev.asV2.value) else Failure(Json(ev.asV2.error)))
    ensures EffectiveVersion(payloadVersion, ev) in {Some("1.0"), Some("")} ==>
      r == (if ev.asV1.Success? then V1HttpRequest(ev.asV1.value) else Failure(Json(ev.asV1.error)))
    ensures EffectiveVersion(payloadVersion, ev).Some? && EffectiveVersion(payloadVersion, ev).value !in {"2.0", "1.0", ""} ==>
      r == Failure(UnsupportedVersion(EffectiveVersion(payloadVersion, ev).value))
  {
    match EffectiveVersion(payloadVersion, ev)
    case None => Failure(Json(ev.version.error))
    case Some(v) =>
      if v == "2.0" then
        match ev.asV2
        case Failure(e) => Failure(Json(e))
        case Success(rv2) => V2HttpRequest(rv2)
      else if v == "1.0" || v == "" then
        match ev.asV1
        case Failure(e) => Failure(Json(e))
        case Success(rv1) => V1HttpRequest(rv1)
      else Failure(UnsupportedVersion(v))
  }

  // ---------------------------------------------------------------- http.Request to envelope

  /** Envelope body: the bytes base64-encoded when there are any, else empty and not flagged. */
  function EncodeBody(b: seq<byte>): (r: (seq<byte>, bool))
    ensures r.1 <==> |b| > 0
    ensures DecodeBody(r.0, r.1) == Success(b)
  {
    DecodeBodyOfEncoded(b);
    if |b| > 0 then (Base64.Encode(b), true) else ([], false)
  }

  /**
   * The single-valued header map of a 1.0 envelope: Host first, then the
   * first value of every header key (a Host key in the header wins).
   */
  function FirstValues(host: string, header: Header): (m: map<string, string>)
    ensures m.Keys == header.Keys + {"Host"}
    ensures forall k :: k in header ==> m[k] == Get(header, k)
    ensures "Host" !in header ==> m["Host"] == host
  {
    map["Host" := host] + map k | k in header :: Get(header, k)
  }

  /** The multi-valued header map of a 1.0 envelope: the header with Host set to its one value. */
  function WithHost(host: string, header: Header): (m: map<string, seq<string>>)
    ensures m.Keys == header.Keys + {"Host"}
    ensures m["Host"] == [host]
    ensures forall k :: k in header && k != "Host" ==> m[k] == header[k]
  {
    header["Host" := [host]]
  }

  /** queryStringParameters of a 1.0 envelope: the first value of every query key. */
  function FirstQueryValues(q: Url.Values): (m: map<string, string>)
    requires Url.AllNonEmpty(q)
    ensures m.Keys == q.Keys
    ensures forall k :: k in m ==> m[k] == q[k][0]
  {
    map k | k in q :: q[k][0]
  }

  /**
   * The header map of a 2.0 envelope: Host first, then every header key
   * but Cookie with its values joined by ",".
   */
  function JoinedHeaders(host: string, header: Header): (m: map<string, string>)
    ensures m.Keys == (header.Keys - {"Cookie"}) + {"Host"}
    ensures forall k :: k in header && k != "Cookie" ==> m[k] == Join(header[k], ",")
    ensures "Host" !in header ==> m["Host"] == host
  {
    map["Host" := host] + map k | k in header && k != "Cookie" :: Join(header[k], ",")
  }

  /** queryStringParameters of a 2.0 envelope: every query key with its values joined by ",". */
  function JoinedQueryValues(q: Url.Values): (m: map<string, string>)
    ensures m.Keys == q.Keys
    ensures forall k :: k in m ==> m[k] == Join(q[k], ",")
  {
    map k | k in q :: Join(q[k], ",")
  }

  /**
   * ToRequestV1. Go dereferences r.URL, so a request without a URL is
   * outside its domain; the error it returns is always nil.
   */
  function ToRequestV1(req: HttpRequest): (rv1: RequestV1)
    requires req.url.Some?
    ensures rv1.version == "1.0"
    ensures rv1.httpMethod == req.httpMethod && rv1.requestContext.httpMethod == req.httpMethod
    ensures rv1.path == req.url.value.path
    ensures rv1.headers == FirstValues(req.host, req.header)
    ensures rv1.multiValueHeaders == WithHost(req.host, req.header)
    ensures rv1.multiValueQueryStringParameters == Url.Query(req.url.value)
    ensures rv1.queryStringParameters == FirstQueryValues(Url.Query(req.url.value))
    ensures rv1.isBase64Encoded <==> |req.body| > 0
    ensures DecodeBody(rv1.body, rv1.isBase64Encoded) == Success(req.body)
    ensures rv1.requestContext.identity == map[]
  {
    var q := Url.Query(req.url.value);
    var (body, encoded) := EncodeBody(req.body);
    RequestV1("1.0", body, FirstValues(req.host, req.header), WithHost(req.host, req.header),
              req.httpMethod, req.url.value.path, FirstQueryValues(q), q,
              RequestContextV1(req.httpMethod, map[]), encoded)
  }

  /** ToRequestV2; as for ToRequestV1, the request must carry a URL. */
  function ToRequestV2(req: HttpRequest): (rv2: RequestV2)
    requires req.url.Some?
    ensures rv2.version == "2.0"
    ensures rv2.rawPath == req.url.value.path && rv2.requestContext.http.path == req.url.value.path
    ensures rv2.rawQueryString == req.url.value.rawQuery
    ensures rv2.requestContext.http.httpMethod == req.httpMethod
    ensures rv2.requestContext.http.protocol == req.proto
    ensures rv2.requestContext.http.sourceIp == ""
    ensures rv2.headers == JoinedHeaders(req.host, req.header)
    ensures rv2.cookies == Values(req.header, "Cookie")
    ensures rv2.queryStringParameters == JoinedQueryValues(Url.Query(req.url.value))
    ensures rv2.isBase64Encoded <==> |req.body| > 0
    ensures DecodeBody(rv2.body, rv2.isBase64Encoded) == Success(req.body)
  {
    var (body, encoded) := EncodeBody(req.body);
    RequestV2("2.0", req.url.value.path, req.url.value.rawQuery, Values(req.header, "Cookie"),
              JoinedHeaders(req.host, req.header), JoinedQueryValues(Url.Query(req.url.value)),
              RequestContextV2(HTTPContext(req.httpMethod, req.url.value.path, req.proto, "")),
              body, encoded)
  }

  // ---------------------------------------------------------------- properties of the translators

  /** When PayloadVersion is set, the event's own version field is never looked at. */
  lemma PayloadVersionOverrides(payloadVersion: string, ev1: Event, ev2: Event)
    requires payloadVersion != ""
    requires ev1.asV1 == ev2.asV1 && ev1.asV2 == ev2.asV2
    ensures NewRequest(payloadVersion, ev1) == NewRequest(payloadVersion, ev2)
  {
  }

  /** An event of version 3.0 is refused, and the error names the version. */
  lemma Version3Refused(ev: Event)
    requires ev.version == Success("3.0")
    ensures NewRequest("", ev) == Failure(UnsupportedVersion("3.0"))
    ensures Message(NewRequest("", ev).error) == "payload Version 3.0 is not supported"
  {
    assert "3.0" !in {"2.0", "1.0", ""};
    Version3Message();
  }

  lemma Version3Message()
    ensures Message(UnsupportedVersion("3.0")) == "payload Version 3.0 is not supported"
  {
  }

  /** With multiValueHeaders present, the single-valued headers map is ignored. */
  lemma V1PrefersMultiValueHeaders(ev: RequestV1, headers: map<string, string>)
    requires |ev.multiValueHeaders| > 0
    ensures V1HttpRequest(ev.(headers := headers)) == V1HttpRequest(ev)
  {
    assert V1Header(ev.(headers := headers)) == V1Header(ev);
  }

  /**
   * The query is appended only when the single-valued map is non-empty: an
   * envelope whose query values sit only in the multi-valued map yields a
   * URL with no query at all.
   */
  lemma V1QueryNeedsSingleValuedMap(ev: RequestV1)
    requires |ev.queryStringParameters| == 0 && |ev.multiValueQueryStringParameters| > 0
    requires Url.IsPlainPath(ev.path)
    ensures Url.Parse(V1RequestURI(ev)) == Some(Url.URL("", "", "", ev.path, "", ""))
    ensures V1HttpRequest(ev).Success? ==> Url.Query(V1HttpRequest(ev).value.url.value) == map[]
  {
    Url.ParsePathQuery(ev.path, false, "");
    assert Url.ParseQuery("") == map[];
  }

  /**
   * With a single-valued query map present, the URL the 1.0 translator
   * parses carries exactly the query values V1Query chose, whichever of the
   * two maps they came from.
   */
  lemma V1QueryReachesURL(ev: RequestV1)
    requires |ev.queryStringParameters| > 0 && Url.IsPlainPath(ev.path)
    ensures Url.Parse(V1RequestURI(ev)).Some?
    ensures Url.Parse(V1RequestURI(ev)).value.path == ev.path
    ensures Url.Query(Url.Parse(V1RequestURI(ev)).value) == V1Query(ev)
  {
    var v := V1Query(ev);
    Url.EncodeSafe(v);
    Url.ParsePathQuery(ev.path, true, Url.Encode(v));
    Url.ParseQueryEncode(v);
  }

  /** Every request a translator returns has already passed validation. */
  lemma TranslatorsValidate(ev1: RequestV1, ev2: RequestV2)
    ensures V1HttpRequest(ev1).Success? ==> Validate(V1HttpRequest(ev1).value) == V1HttpRequest(ev1)
    ensures V2HttpRequest(ev2).Success? ==> Validate(V2HttpRequest(ev2).value) == V2HttpRequest(ev2)
  {
  }

  /** The smallest 1.0 envelope: a method and a path, nothing else. */
  function MinimalV1(httpMethod: string, path: string): RequestV1 {
    RequestV1("", [], map[], map[], httpMethod, path, map[], map[], RequestContextV1("", map[]), false)
  }

  /** An event with no version and just a method and a plain path becomes a bare request. */
  lemma MinimalEnvelopeV1(httpMethod: string, path: string, asV2: Result<RequestV2, string>)
    requires httpMethod != "" && Url.IsPlainPath(path)
    ensures var r := NewRequest("", Event(Success(""), Success(MinimalV1(httpMethod, path)), asV2));
      && r.Success?
      && r.value.httpMethod == httpMethod
      && r.value.url == Some(Url.URL("", "", "", path, "", ""))
      && r.value.header == map[] && r.value.host == ""
      && r.value.body == [] && r.value.remoteAddr == ""
  {
    var ev := MinimalV1(httpMethod, path);
    Url.ParsePathQuery(path, false, "");
    assert V1RequestURI(ev) == path;
    EmptyHeaders();
    assert V1Header(ev) == map[];
  }

  /** The smallest 2.0 envelope: a method and a raw path, nothing else. */
  function MinimalV2(httpMethod: string, rawPath: string): RequestV2 {
    RequestV2("2.0", rawPath, "", [], map[], map[], RequestContextV2(HTTPContext(httpMethod, "", "", "")), [], false)
  }

  /** A 2.0 event with just a method and a plain raw path becomes a bare request of protocol (0, 0). */
  lemma MinimalEnvelopeV2(httpMethod: string, rawPath: string, asV1: Result<RequestV1, string>)
    requires httpMethod != "" && Url.IsPlainPath(rawPath)
    ensures var r := NewRequest("", Event(Success("2.0"), asV1, Success(MinimalV2(httpMethod, rawPath))));
      && r.Success?
      && r.value.httpMethod == httpMethod
      && r.value.url == Some(Url.URL("", "", "", rawPath, "", ""))
      && r.value.header == map[] && r.value.host == ""
      && r.value.protoMajor == 0 && r.value.protoMinor == 0
  {
    var ev := MinimalV2(httpMethod, rawPath);
    Url.ParsePathQuery(rawPath, false, "");
    assert V2RequestURI(ev) == rawPath;
    EmptyHeaders();
    assert V2Header(ev) == map[];
    assert ParseHTTPProtocol("") == (0, 0);
  }
}
