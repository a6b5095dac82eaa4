# ridge protocol-adaptation layer, in Dafny

ridge lets an ordinary Go `http.Handler` run behind AWS Lambda (API Gateway
REST and HTTP APIs, Function URLs) or behind a plain net/http listener. This
project models its adaptation layer as pure functions over immutable data and
proves what that layer promises:

- **Inbound translation** (`Requests`, `requests.dfy`). `NewRequest` picks a
  payload format: the package-level `PayloadVersion` when it is set, otherwise
  the event's own `version` field. It then runs the 1.0 or 2.0 translator,
  which builds the `http.Request` fields and validates them.
  - `ToRequestV1` and `ToRequestV2` go the other way, from a request to an
    envelope.
  - `RoundTrip` (`roundtrip.dfy`) proves which parts of a request survive the
    trip out and back in.
- **Buffered response** (`Responses`, `responses.dfy`). The `ResponseWriter`
  holds status, headers and body. `Response()` does four things:
  - defaults the Content-Type;
  - builds the single-valued header view;
  - base64-encodes the body when a header marks it binary;
  - copies the cookies out for HTTP APIs only.
- **Binary/text decision** (`Classify`, `classify.dfy`): `isBinary` and
  `isTextMime`. The package variables `TextMimeTypes` and `DefaultContentType`
  are passed in as a `Config`.
- **Streaming response** (`Streaming`, `streaming.dfy`). The
  `StreamingResponseWriter` commits its status and headers exactly once. It
  buffers writes until `Flush` and delivers them to the body pipe, which is
  modelled as a byte sequence. `Close` commits, flushes and closes.
  Handler behaviour is modelled as a sequence of actions, and lemmas quantify
  over every such sequence.
- **Dispatcher** (`Dispatch`, `dispatch.dfy`) covers:
  - the Lambda environment tests;
  - `detectAPIType`;
  - `mountMux` and the path a mounted handler sees;
  - `strconv.ParseBool` and `setStreamingResponse`;
  - the serving mode `RunWithContext` chooses.

The environment is a map from variable name to value.

The adaptation layer calls into Go's standard library. The parts it relies on
are written out as real functions, so that the round trips are proved rather
than presumed:

| module | Go library behaviour it models |
|---|---|
| `Headers` | `http.Header`'s Add, Set, Del, Get and Values |
| `TextProto` | `CanonicalMIMEHeaderKey` |
| `Url` | `url.Parse`, `QueryEscape`/`QueryUnescape`, `ParseQuery`, `Values.Encode` |
| `Base64` | `base64.StdEncoding` |
| `Mime` | `mime.ParseMediaType` |
| `GoStrings`, `KeyOrder`, `Results` | small helpers these build on |

Strings are modelled as `seq<char>`, with one char per byte. Request, envelope
and response bodies are byte sequences.

## Model

| member | source | states |
|---|---|---|
| Requests.NewRequest | request.go:39-67 | Version "2.0" runs the 2.0 translator and "1.0" or "" runs the 1.0 one. Any other version fails with UnsupportedVersion carrying that version. If the version or the chosen envelope fails to decode, the result is that decoding error. |
| Requests.PayloadVersionOverrides | request.go:43-49 | With PayloadVersion set, two events that differ only in their version field give the same result. |
| Requests.Version3Refused | request_rest_api_test.go:151-163 | An event of version 3.0 is refused. The error text is exactly "payload Version 3.0 is not supported". |
| Requests.DecodeBody | request.go:103-114 | A body not flagged base64 passes through verbatim. A flagged body decodes exactly when it is well-formed base64 once CR and LF are dropped; otherwise the error is corrupt input. |
| Requests.DecodeBodyOfEncoded | request.go:278-284 | The body written into an envelope (base64 when non-empty, else empty and unflagged) decodes back to the original bytes. |
| Requests.Validate | request.go:183-194 | A request is accepted exactly when it has a method, a URL and a non-empty path; it is then returned unchanged. The first failing check, in that order, names the error. |
| Requests.ValidateIdempotent | request.go:183-194 | A request validation accepted passes validation again with the same result. |
| Requests.TranslatorsValidate | request.go:128 | Every request the 1.0 or 2.0 translator returns is accepted unchanged by validateRequest. |
| Requests.V1Query | request.go:84-95 | When multiValueQueryStringParameters has any key, the query holds exactly its keys that have values, each with all its values. Otherwise it holds exactly the keys of queryStringParameters, each with its one value. |
| Requests.V1QueryReachesURL | request.go:84-100 | When queryStringParameters is non-empty and the path is plain, the translator's URL has that path and its query values are exactly the ones V1Query chose, whichever map they came from. |
| Requests.V1RequestURI | request.go:96-99 | The request URI is the path alone when the single-valued query map is empty. Otherwise it is path, "?" and the encoded query values. |
| Requests.V1HttpRequest | request.go:69-129 | The 1.0 translator succeeds exactly when the body decodes, the method is non-empty and the URI parses to a non-empty path. A bad body is reported before an empty method. On success the result has HTTP/1.1, the decoded body and its length, Host moved out of the canonical header into the host field (the header is the envelope's header, every key and value, minus Host), and the identity's sourceIp as the remote address. |
| Requests.V1PrefersMultiValueHeaders | request.go:71-81 | When multiValueHeaders has any key, the single-valued headers map has no effect on the result. |
| Requests.V1QueryNeedsSingleValuedMap | request.go:96-100 | A 1.0 envelope whose query values sit only in the multi-valued map yields a URL with no query. |
| Requests.ParseHTTPProtocol | request.go:242-253 | HTTP/1.0 gives (1,0) and HTTP/1.1 gives (1,1), each exactly. Anything starting "HTTP/2" gives (2,0). Everything else gives (0,0). Each direction is stated. |
| Requests.ParseHTTPProtocolOfName | request.go:242-253 | For every one-digit version M.N, the string "HTTP/M.N" parses to (M,N) when it is 1.0 or 1.1, to (2,0) for every 2.N, and to (0,0) otherwise. |
| Requests.ParsedOneNamesItself | request.go:243-247 | A protocol read as major version 1 has minor 0 or 1, and is exactly the string "HTTP/1." followed by that digit. |
| Requests.V2RequestURI | request.go:206-209 | The request URI is rawPath, plus "?" and the raw query only when the raw query is non-empty. |
| Requests.V2Header | request.go:197-205 | The 2.0 header has canonical keys and no Host; every other key of the envelope's headers keeps its value. The Cookie values are the envelope's Cookie header followed by the cookies list joined with "; ", when that list is non-empty. |
| Requests.V2HttpRequest | request.go:196-240 | The 2.0 translator succeeds exactly when the body decodes, the method is non-empty and the URI parses to a non-empty path. A bad body is reported before an empty method. On success the method, protocol and source IP come from requestContext.http, the protocol numbers come from parseHTTPProtocol, and the body is the decoded one. |
| Requests.EncodeBody | request.go:278-284 | The base64 flag is set exactly when the body is non-empty, and the envelope body decodes back to the original bytes. |
| Requests.ToRequestV1 | request.go:256-286 | The 1.0 envelope has version "1.0", the method in both places and the URL path. The single-valued headers hold every header key with its first value, plus Host (the header's own Host wins). The multi-valued headers are the header with Host set to the request's host. The query maps are the URL's query values and each key's first value. The body decodes back to the request body. |
| Requests.ToRequestV2 | request.go:289-321 | The 2.0 envelope has version "2.0", the raw path and raw query verbatim, and the method and protocol. Its headers hold every header key except Cookie, each with its values joined by ",", plus Host. Its cookies are the Cookie values, and its query joins each key's values by ",". The body decodes back to the request body. |
| Requests.MinimalEnvelopeV1 | request_v1_test.go:277-289 | An event holding just a method and a plain path becomes a request with that method, that path, no query, no header, no host and an empty body. |
| Requests.MinimalEnvelopeV2 | request_v2_test.go:127-147 | A 2.0 event holding just a method and a plain raw path becomes a request with that method and path, no header, and protocol (0,0). |
| RoundTrip.WithHostRoundTrip | request.go:266-272 | The 1.0 translator's header step, applied to what ToRequestV1 wrote, gives back the host and every header key that has a value. |
| RoundTrip.V1RequestURIOfRoundTrip | request.go:96-99 | The URI rebuilt from a ToRequestV1 envelope is the path, plus "?" and the re-encoded query when the URL had a query. |
| RoundTrip.V1URLOfRoundTrip | request.go:100 | That URI parses back to the same path, and to a query with the same values. |
| RoundTrip.V1RoundTripURL | request_v1_test.go:247-275 | For a request with a method, a URL whose path is plain (one leading "/", no "%", "?", "#" or control byte), canonical header keys and no Host header, ToRequestV1 followed by NewRequest's 1.0 translator succeeds and gives back the method, the path and the query values. |
| RoundTrip.V1RoundTrip | request_v1_test.go:247-275 | The same round trip gives back the host, the body and its length. The header comes back minus the keys that had no value. |
| RoundTrip.PercentPathBreaksV1RoundTrip | request.go:265 | A request whose decoded URL path is "/a%b" does not survive ToRequestV1 and back: the path is written decoded, and the 1.0 translator fails with "url is nil". |
| RoundTrip.PercentPathBreaksV2RoundTrip | request.go:292 | The same request fails the 2.0 round trip in the same way, since rawPath is also written decoded. |
| Url.ParseBadEscape | request.go:100 | A path starting with one "/", with no "?", "#" or control byte, whose percent escapes are malformed, makes url.Parse fail. |
| RoundTrip.V1RoundTripHeader | request_v1_test.go:247-275 | A header with a value under every key comes back unchanged from the 1.0 round trip. |
| RoundTrip.JoinedHeadersRoundTrip | request.go:301-307 | Read back through the 2.0 header step, the single-valued map ToRequestV2 wrote gives each key its one value, and Host the request's host. |
| RoundTrip.V2HeaderOfRoundTrip | request.go:197-205 | The 2.0 header rebuilt from a ToRequestV2 envelope is the original header with each key's values joined by ",". The cookies come back as one Cookie line joined by "; ". |
| RoundTrip.V2RoundTrip | request_v2_test.go:94-125 | For a request meeting the conditions of RoundTrip.V1RoundTripURL whose raw query also holds no "#" or control byte, ToRequestV2 followed by the 2.0 translator succeeds. It gives back the method, the protocol and its numbers, the path and raw query exactly, the host and the body; the header comes back joined. |
| RoundTrip.V2RoundTripHeader | request_v2_test.go:94-125 | A header with exactly one value under every key comes back unchanged from the 2.0 round trip. |
| Responses.APITypeName | ridge.go:46-55 | REST and HTTP name themselves, and every other value is "UNKNOWN"; each direction is stated. |
| Responses.NewResponseWriter | ridge.go:87-98 | Only REST and HTTP give a writer: empty, with no headers, status 200 and that API type. Any other type fails with "invalid apiType: UNKNOWN". |
| Responses.RunBuffer | ridge.go:100-106 | After any sequence of handler actions, the buffer holds everything written, in order. |
| Responses.RunStatus | ridge.go:112-114 | After any sequence of handler actions, the status is the code of the last WriteHeader, or the initial one when there was none. |
| Responses.DefaultStatus | ridge.go:91-96 | A fresh writer answers 200 unless the handler called WriteHeader. |
| Responses.WithContentType | ridge.go:127-129 | The default Content-Type is added only when Content-Type is missing or empty; otherwise the header is unchanged, and no other key changes either way. |
| Responses.CookiesFor | ridge.go:116-121 | A REST writer has no cookies; any other type has every Set-Cookie value. |
| Responses.BodyField | ridge.go:138-140 | When encoding, the body field decodes back to the buffered bytes; otherwise it is those bytes. |
| Responses.ToResponse | ridge.go:123-150 | The response carries the writer's status and the header with the default Content-Type. It is flagged base64 exactly when some header is binary, in which case its body decodes to the buffer. Cookies are per API type. |
| Responses.ResponseHeaders | ridge.go:123-150 | The response headers are every handler key plus Content-Type, with the handler's Content-Type or the default. Every other key is untouched, and Set-Cookie stays in the header. A REST response has no cookies and an HTTP one has exactly the Set-Cookie values. |
| Responses.DefaultResponseIsText | ridge.go:127-140 | Under the default settings, a handler that set neither a Content-Type nor a gzip encoding gets its body back verbatim and unflagged. |
| Responses.BinaryContentTypeEncodes | ridge.go:131-140 | A non-text Content-Type set by the handler makes the body base64, and it decodes back to the buffer. |
| Responses.GzipEncodes | ridge.go:235-237 | A gzip Content-Encoding makes the body base64, whatever the Content-Type. |
| Responses.PngResponseEncodes | request_v1_test.go:194-245 | An image/png response is base64-encoded under the default settings. |
| Classify.Listed | ridge.go:251-258 | The scan over TextMimeTypes reports a match exactly when the media type is in the list. |
| Classify.IsBinary | ridge.go:231-259 | Only Content-Type and Content-Encoding can be binary. A Content-Encoding is binary exactly when it is "gzip". A Content-Type is binary exactly when it does not parse, or parses to a type that is neither under text/ nor listed. |
| Classify.TextMimeIgnoresParameter | ridge.go:241-245 | A parameter after the media type never changes whether it is text. |
| Classify.TextTypesAreText | ridge.go:247-249 | Every type under text/ is text, whatever TextMimeTypes holds. |
| Classify.ListedTypesAreText | ridge.go:251-258 | A listed lower-case type is text. |
| Classify.TextWithParameterIsText | ridge.go:241-249 | A text/ type with a parameter is still text. |
| Classify.DefaultContentTypeIsText | ridge.go:33 | The default Content-Type is text, so on its own it never forces base64. |
| Classify.JsonIsText | ridge.go:30 | application/json is text through the default list. |
| Classify.UnlistedTypeIsBinary | ridge.go:231-259 | A parsable type that is neither under text/ nor listed makes a Content-Type binary. |
| Classify.PngIsBinary | ridge.go:30 | image/png is binary under the default list. |
| Streaming.NewStreamWriter | ridge.go:153-164 | A new writer has nothing buffered, committed, delivered or closed, and status 200. |
| Streaming.WriteHeader | ridge.go:180-195 | Only the first call commits: it sets the code, the joined headers, and the Set-Cookie values as cookies when there are any. Later calls change nothing. |
| Streaming.Flush | ridge.go:201-210 | Flush commits with 200 if needed and empties the buffer. The buffered bytes reach the pipe unless it is already closed. |
| Streaming.Close | ridge.go:212-221 | Close leaves the writer committed, flushed and closed, and the buffered bytes reach the pipe if it was open. |
| Streaming.CommitOnce | ridge.go:180-183 | Once committed, no sequence of actions changes the committed response. |
| Streaming.CommittedStatus | ridge.go:180-221 | A writer commits exactly when some WriteHeader, Flush or Close happens. The status is the first WriteHeader's code if it came before any Flush or Close, and 200 otherwise. |
| Streaming.DeliveredPlusPending | ridge.go:197-210 | Until the pipe is closed, what was delivered followed by what is buffered is everything written, in order. |
| Streaming.StreamDeliversEverything | ridge.go:393-397 | A handler's actions followed by the deferred Close deliver every written byte, in order, with nothing left buffered and the pipe committed and closed. |
| Streaming.StreamStatus | ridge.go:393-399 | The status the runtime sees is the first WriteHeader's code if it came before any Flush, else 200. |
| Streaming.EventStream | response_test.go:62-118 | A handler that sets Content-Type to text/event-stream, commits 200, and writes and flushes any list of chunks, followed by the deferred Close, yields status 200, exactly that one header, no cookies, and the chunks in order as the body. |
| Streaming.FlushEmptyIsNoOp | ridge.go:205-207 | Flushing an empty buffer after the commit changes nothing. |
| Dispatch.HandlerOrExtension | ridge.go:337-349 | On the runtime a process is exactly one of handler and extension; off it, neither. |
| Dispatch.DetectAPIType | ridge.go:352-361 | The API type is always REST or HTTP. It is HTTP exactly when the event's version decodes to a non-empty string. |
| Dispatch.DetectedTypeIsValid | ridge.go:388-389 | The buffered handler's NewResponseWriter(detectAPIType(event)) never panics. |
| Dispatch.VersionedEventsAreHTTP | ridge.go:357-360 | Events of version 1.0 or 2.0 are from HTTP APIs. |
| Dispatch.MountMux | ridge.go:363-374 | "" and "/" mount at the root and strip nothing. Any other prefix is stripped of one trailing "/" if it has one. The result is the prefix StripPrefix removes, and that prefix followed by "/" is the ServeMux pattern. |
| Dispatch.TrailingSlashIrrelevant | ridge.go:368-371 | A prefix with and without its trailing slash mounts the same way. |
| Dispatch.Route | ridge.go:363-374 | Mounted at "" or "/", exactly the absolute paths reach the handler, unchanged. Mounted at "/api" or "/api/", exactly the paths starting "/api/" reach it, with "/api" cut off the front. |
| Dispatch.RouteKeepsAbsolutePath | ridge.go:369-371 | The handler always sees an absolute path, and the stripped prefix followed by that path is the request path. |
| Dispatch.ParseBool | ridge.go:311 | Exactly 1, t, T, TRUE, true and True parse as true. Exactly 0, f, F, FALSE, false and False parse as false. |
| Dispatch.SetStreamingResponse | ridge.go:303-320 | A flag already on stays on. Otherwise it ends on exactly when the variable is set and parses as true. |
| Dispatch.RunMode | ridge.go:323-332 | The process serves as a Lambda handler exactly when AsLambdaHandler holds, with the streaming switch resolved first. An extension runs the net/http server. |
| Dispatch.HandlerStreamsOnlyWhenAsked | ridge.go:303-332 | With streaming off by default, a Lambda handler streams exactly when RIDGE_STREAMING_RESPONSE is set to a value strconv.ParseBool reads as true. An unset, false or unparsable value leaves responses buffered. |
| Headers.Add | request.go:74 | Header.Add appends the value under the canonical key, changes no other key, and keeps keys canonical. |
| Headers.Set | ridge.go:128 | Header.Set leaves exactly that one value under the canonical key and changes no other key. |
| Headers.Del | request.go:83 | Header.Del removes the canonical key only. |
| Headers.AddAll | request.go:72-76 | Adding a key's values in turn appends them all, in order, and changes no other key. |
| Headers.FromMultiCanonical | request.go:70-76 | Adding every value of an envelope map whose keys are canonical gives that map, minus keys with no value. |
| Headers.FromSingleCanonical | request.go:78-80 | Adding every entry of a single-valued map with canonical keys gives each key its one value. |
| TextProto.CanonicalKeyIdempotent | request.go:74 | A canonical key is its own canonical form. |
| TextProto.CanonicalKeyCaseInsensitive | request.go:74 | Keys equal up to ASCII case canonicalise alike. |
| TextProto.KnownKeysCanonical | request.go:82-83 | Host, Cookie, Set-Cookie, Content-Type and Content-Encoding are canonical. |
| Url.ParseQuery | request.go:273 | Every key URL.Query yields carries at least one value. |
| Url.ParseQueryEncode | request.go:98 | Parsing what Values.Encode wrote gives back the same values, when every key has one. |
| Url.EncodeSafe | request.go:98-100 | Values.Encode never writes '#' or a control byte, so the query survives url.Parse. |
| Url.Parse | request.go:100 | A parsed URL's raw query holds no '#', and a fragment is only ever present when the input had one. |
| Url.ParsePathQuery | request.go:100 | A plain path, optionally followed by "?" and a '#'-free query, parses back into exactly that path and query. |
| Base64.DecodeSucceedsIffWellFormed | request.go:105-108 | StdEncoding.Decode succeeds exactly on well-formed input, apart from CR and LF. It yields three bytes per quantum, less the padding. |
| Base64.DecodeEncode | request.go:281 | Decoding what StdEncoding.EncodeToString wrote gives back the original bytes. |
| Mime.ParseMediaType | ridge.go:242-245 | A parsed media type is a token or token/token, and is lower case. |
| Mime.ParseMediaTypeWithParameter | ridge.go:242-245 | "type/subtype; name=value" written in tokens parses to "type/subtype". |

## Left out

- JSON decoding of the event is not modelled. An `Event` carries the three outcomes `json.Unmarshal` can have in `NewRequest`: the version field, the event as a 1.0 envelope, and as a 2.0 envelope. Each is a `Result` whose failure is the decoder's error text.
- Requests.Message: the base64 error omits the byte offset Go appends to "illegal base64 data at input byte".
- Go map iteration order is unspecified. Where it can matter, the model visits keys in sorted byte order, which is one order Go may use:
  - adding envelope keys that canonicalise alike;
  - `url.Values.Encode`, which sorts keys itself.
- Requests.ToRequestV1 and Requests.ToRequestV2 require a URL, because Go dereferences `r.URL` and would panic without one.
  - A nil request body and an empty one are the same in the model.
  - The envelope fields the translators never read are omitted: stageVariables, pathParameters, routeKey and the request-context ids.
- Requests.ToRequestV1: Go aliases the request's header map and writes Host into it. That side effect on the caller's request is not modelled.
- Requests.ToRequestV1 — Go panics when the request's Header is nil, because request.go:272 writes Host into that map. The model has no nil header and treats one as an empty header, so it returns an envelope where Go panics. ToRequestV2 only reads the header, which is safe on a nil map.
- Requests.V1HttpRequest: the body is a byte sequence, not an `io.Reader`. ContentLength is its length.
- Url.Parse leaves out URL user info, IPv6 hosts, RawPath, and the `OmitHost`/`ForceQuery` flags.
- Url.Parse does not check the host or the port. The model accepts some URIs Go's `url.Parse` refuses, and for those a translator succeeds where Go fails with "url is nil". Examples:
  - a port that is not all digits, as in `//a:b/x`;
  - a host holding a character Go does not allow there, such as a space, as in `//a b/x`.
  Such URIs arise only when an envelope path starts with "//". The round-trip lemmas require a plain path, which never does.
- Mime.ParseMediaType: parameters are checked for well-formedness, but their values are not returned, and RFC 2231 continuations are not decoded.
- Mime.ParseMediaType — a repeated parameter name is always refused. Go 1.20 and later accept a repeat whose value is equal, so `text/plain; charset=utf-8; charset=utf-8` is text in Go but base64-encoded here.
- Mime.ParseMediaType — lower-casing and white-space trimming cover ASCII only. Go's `strings.ToLower` and `strings.TrimSpace` also handle other Unicode letters and spaces, such as U+00A0.
- Responses.CookiesFor: the REST case is an empty sequence where Go returns nil. The JSON `omitempty` that then drops the field is not modelled.
- Streaming.Flush: the pipe is an unbounded byte sequence. Backpressure and the reader side are left out.
- `Wait` and the `ready` channel are left out. So is the goroutine that runs the handler concurrently; `StreamDeliversEverything` models its deferred `Close` as the last action.
- Writes after `Close` are kept in the buffer and never delivered, as the closed pipe drops them.
- `ResponseWriter.WriteTo` and `StreamingResponseWriter.Response` are left out: they are a JSON dump and a field accessor.
- `runAsLambdaHandler` is covered only by the pieces it composes: `DetectAPIType`, `NewResponseWriter`, `MountMux`/`Route`, and the streaming writer with its deferred `Close`. Not modelled:
  - the lambda-go runtime;
  - the trace headers it sets from the invocation context;
  - the SIGTERM hook.
- `runOnNetHTTPServer` is not modelled: listening, the PROXY protocol wrapper, signals and graceful shutdown are I/O and concurrency.
- Dispatch.Route: the ServeMux redirect of a bare prefix without its trailing slash to the slashed one is not modelled; such a path yields None.
- Dispatch.Route: ServeMux path cleaning is not modelled either. Go answers a path holding `//`, `/./` or `/../`, such as `/api//x`, with a 301 redirect to the cleaned path. The model hands such a path to the handler as written.
- The handler's own logic is not modelled. A handler is any sequence of Write, WriteHeader and header-edit actions.
- Logging (`logs.go`), the command-line tool (`cli.go`, `cmd`, `ridgecli`) and test-only helpers are not part of this model.
- Integers are unbounded. Go's `int64` ContentLength and `int` status codes cannot overflow for the inputs considered here.

## Notes on the source

- The streaming switch follows `setStreamingResponse` as written. A value `strconv.ParseBool` refuses, including the empty string, leaves the flag as it was; it does not turn it off. `ParseBool` accepts exactly the twelve spellings listed above, so for example "TRUE" is true and "yes" is refused.
- `ToRequestV1` writes `r.URL.Path` into `path` (request.go:265), and `ToRequestV2` writes it into `rawPath` (request.go:292). That is the decoded path. A path that needed escaping on the wire does not survive the trip back through a translator. A literal '%' is the clearest case: the translator's `url.Parse` reads it as a malformed escape and the request fails with "url is nil" (`RoundTrip.PercentPathBreaksV1RoundTrip`, `RoundTrip.PercentPathBreaksV2RoundTrip`). A decoded '?' or '#' would be read as the start of the query or fragment. The round-trip lemmas therefore require a plain path.
- Some of the repository's tests expect a payload-version request header that `request.go` does not set. The model follows `request.go`.
