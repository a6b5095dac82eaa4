/**
 * What survives a trip from an http.Request out to an envelope
 * (ToRequestV1 / ToRequestV2) and back in through the matching translator.
 */
module RoundTrip {
  import opened Results
  import opened GoStrings
  import opened TextProto
  import opened KeyOrder
  import opened Headers
  import Url
  import opened Requests

  /**
   * A request the round trips can carry: it has a URL whose path url.Parse
   * gives back unchanged, a method, canonical header keys, and no Host
   * header (net/http keeps the host in its own field).
   */
  predicate Carriable(req: HttpRequest) {
    && req.url.Some?
    && Url.IsPlainPath(req.url.value.path)
    && req.httpMethod != ""
    && CanonicalKeys(req.header)
    && "Host" !in req.header
  }

  // ---------------------------------------------------------------- payload format 1.0

  /** The multi-valued headers ToRequestV1 writes give the host and the non-empty header back. */
  lemma WithHostRoundTrip(host: string, header: Header)
    requires CanonicalKeys(header) && "Host" !in header
    ensures |WithHost(host, header)| > 0
    ensures Get(FromMulti(WithHost(host, header)), "Host") == host
    ensures Del(FromMulti(WithHost(host, header)), "Host") == NonEmpty(header)
  {
    KnownKeysCanonical();
    var m := WithHost(host, header);
    assert "Host" in m;
    assert CanonicalKeys(m) by {
      forall k | k in m ensures IsCanonical(k) {
        if k != "Host" { assert k in header; }
      }
    }
    FromMultiCanonical(m);
    var h := NonEmpty(m);
    assert "Host" in h && h["Host"] == [host];
    var d := Del(h, "Host");
    forall k ensures k in d <==> k in NonEmpty(header) {
      if k in d { assert k in h && k != "Host"; }
      if k in NonEmpty(header) { assert k != "Host" && k in m && m[k] == header[k]; }
    }
    forall k | k in d ensures d[k] == NonEmpty(header)[k] {
      assert k in h && k != "Host" && k in header;
    }
    MapsEqual(d, NonEmpty(header));
  }

  /**
   * The request URI the 1.0 translator rebuilds from what ToRequestV1
   * wrote: the path, and "?" with the re-encoded query when the URL had one.
   */
  lemma V1RequestURIOfRoundTrip(req: HttpRequest)
    requires req.url.Some?
    ensures var q := Url.Query(req.url.value);
      V1RequestURI(ToRequestV1(req)) ==
        if |q| > 0 then req.url.value.path + "?" + Url.Encode(q) else req.url.value.path
  {
    var q := Url.Query(req.url.value);
    var ev := ToRequestV1(req);
    assert |ev.queryStringParameters| == |q| by {
      assert ev.queryStringParameters.Keys == q.Keys;
    }
    if |q| > 0 {
      assert NonEmpty(q) == q;
      assert V1Query(ev) == q;
    }
  }

  /** What url.Parse makes of that URI: the same path, and a query that parses to the same values. */
  lemma V1URLOfRoundTrip(req: HttpRequest)
    requires req.url.Some? && Url.IsPlainPath(req.url.value.path)
    ensures var u := Url.Parse(V1RequestURI(ToRequestV1(req)));
      && u.Some?
      && u.value.path == req.url.value.path
      && Url.Query(u.value) == Url.Query(req.url.value)
  {
    var q := Url.Query(req.url.value);
    V1RequestURIOfRoundTrip(req);
    var raw := if |q| > 0 then Url.Encode(q) else "";
    Url.EncodeSafe(q);
    Url.ParsePathQuery(req.url.value.path, |q| > 0, raw);
    if |q| > 0 {
      Url.ParseQueryEncode(q);
    } else {
      assert q == map[];
      assert Url.ParseQuery("") == map[];
    }
  }

  /**
   * ToRequestV1 followed by the 1.0 translator succeeds and gives back the
   * method, the path and the query values.
   */
  lemma V1RoundTripURL(req: HttpRequest)
    requires Carriable(req)
    ensures var r := V1HttpRequest(ToRequestV1(req));
      && r.Success?
      && r.value.httpMethod == req.httpMethod
      && r.value.url.Some? && r.value.url.value.path == req.url.value.path
      && Url.Query(r.value.url.value) == Url.Query(req.url.value)
  {
    V1URLOfRoundTrip(req);
  }

  /**
   * It also gives back the host and the body; header keys that had no
   * value are gone, as the 1.0 envelope cannot carry them.
   */
  lemma V1RoundTrip(req: HttpRequest)
    requires Carriable(req)
    ensures var r := V1HttpRequest(ToRequestV1(req));
      && r.Success?
      && r.value.header == NonEmpty(req.header)
      && r.value.host == req.host
      && r.value.body == req.body && r.value.contentLength == |req.body|
  {
    var ev := ToRequestV1(req);
    WithHostRoundTrip(req.host, req.header);
    assert V1Header(ev) == FromMulti(WithHost(req.host, req.header));
    V1RoundTripURL(req);
    var r := V1HttpRequest(ev);
    assert r.value.header == Del(V1Header(ev), "Host");
  }

  /** Every header key of a request with a value under each survives the 1.0 round trip unchanged. */
  lemma V1RoundTripHeader(req: HttpRequest)
    requires Carriable(req)
    requires forall k :: k in req.header ==> |req.header[k]| > 0
    ensures V1HttpRequest(ToRequestV1(req)).Success?
    ensures V1HttpRequest(ToRequestV1(req)).value.header == req.header
  {
    V1RoundTrip(req);
    MapsEqual(NonEmpty(req.header), req.header);
  }

  /** url.Parse refuses "/a%b": "%b" is not a complete escape. */
  lemma PercentPathRefused()
    ensures Url.Parse("/a%b").None?
  {
    var p := "/a%b";
    assert HasPrefix(p, "/") && !HasPrefix(p, "//") by { assert p[..1] == "/" && p[..2] == "/a"; }
    assert '?' !in p && '#' !in p && Url.NoCTL(p);
    assert Url.Unescape(p[2..], false).None? by { assert |p[2..]| == 2 && p[2..][0] == '%'; }
    assert Url.Unescape(p, false).None? by { assert p[1..][1..] == p[2..]; }
    Url.ParseBadEscape(p);
  }

  /**
   * ToRequestV1 writes the decoded URL path into the envelope. A path
   * holding a literal '%' (sent as "%25") therefore comes back as an
   * invalid escape, url.Parse refuses it, and the round trip fails.
   */
  lemma PercentPathBreaksV1RoundTrip()
    ensures var req := HttpRequest("GET", "HTTP/1.1", 1, 1, map[], 0, [], "", "h", "/a%25b",
                                   Some(Url.URL("", "", "", "/a%b", "", "")));
      V1HttpRequest(ToRequestV1(req)) == Failure(NilUrl)
  {
    var req := HttpRequest("GET", "HTTP/1.1", 1, 1, map[], 0, [], "", "h", "/a%25b",
                           Some(Url.URL("", "", "", "/a%b", "", "")));
    var ev := ToRequestV1(req);
    assert Url.Query(req.url.value) == map[] by { assert Url.ParseQuery("") == map[]; }
    assert V1RequestURI(ev) == "/a%b";
    PercentPathRefused();
  }

  // ---------------------------------------------------------------- payload format 2.0

  /**
   * The header a 2.0 round trip yields: every key but Cookie with its
   * values joined by ",", and the cookies joined by "; " into one Cookie
   * line when there are any.
   */
  function JoinedHeader(header: Header): (h: Header)
    ensures forall k :: k in h && k != "Cookie" ==> |h[k]| == 1
  {
    var rest := map k | k in header && k != "Cookie" :: [Join(header[k], ",")];
    if "Cookie" in header && |header["Cookie"]| > 0 then rest["Cookie" := [Join(header["Cookie"], "; ")]]
    else rest
  }

  /** The single-valued headers ToRequestV2 writes, back through the 2.0 translator's header step. */
  lemma JoinedHeadersRoundTrip(host: string, header: Header)
    requires CanonicalKeys(header) && "Host" !in header
    ensures FromSingle(JoinedHeaders(host, header)) ==
      map k | k in JoinedHeaders(host, header) :: [JoinedHeaders(host, header)[k]]
    ensures Get(FromSingle(JoinedHeaders(host, header)), "Host") == host
  {
    KnownKeysCanonical();
    var m := JoinedHeaders(host, header);
    assert CanonicalKeys(m) by {
      forall k | k in m ensures IsCanonical(k) {
        if k != "Host" { assert k in header; }
      }
    }
    FromSingleCanonical(m);
  }

  /** The 2.0 translator's header, built from what ToRequestV2 wrote, is the joined header. */
  lemma V2HeaderOfRoundTrip(req: HttpRequest)
    requires Carriable(req)
    ensures V2Header(ToRequestV2(req)) == JoinedHeader(req.header)
  {
    KnownKeysCanonical();
    var ev := ToRequestV2(req);
    var m := JoinedHeaders(req.host, req.header);
    JoinedHeadersRoundTrip(req.host, req.header);
    var single := FromSingle(m);
    var d := Del(single, "Host");
    var j := JoinedHeader(req.header);
    assert Values(req.header, "Cookie") == if "Cookie" in req.header then req.header["Cookie"] else [];
    var h := V2Header(ev);
    forall k ensures k in h <==> k in j {
      if k in j && k != "Cookie" { assert k in req.header && k in single; }
    }
    forall k | k in h ensures h[k] == j[k] {
      if k != "Cookie" {
        assert k in single && k in req.header;
      } else {
        assert Values(h, "Cookie") == h[k];
      }
    }
    MapsEqual(h, j);
  }

  /**
   * ToRequestV2 followed by the 2.0 translator gives the request back:
   * same method, protocol, URL (path and raw query exactly), host and
   * body; the header comes back joined.
   */
  lemma V2RoundTrip(req: HttpRequest)
    requires Carriable(req)
    requires '#' !in req.url.value.rawQuery && Url.NoCTL(req.url.value.rawQuery)
    ensures var r := V2HttpRequest(ToRequestV2(req));
      && r.Success?
      && r.value.httpMethod == req.httpMethod
      && r.value.proto == req.proto
      && (r.value.protoMajor, r.value.protoMinor) == ParseHTTPProtocol(req.proto)
      && r.value.url == Some(Url.URL("", "", "", req.url.value.path, req.url.value.rawQuery, ""))
      && r.value.header == JoinedHeader(req.header)
      && r.value.host == req.host
      && r.value.body == req.body && r.value.contentLength == |req.body|
  {
    var ev := ToRequestV2(req);
    var u := req.url.value;
    Url.ParsePathQuery(u.path, u.rawQuery != "", u.rawQuery);
    assert V2RequestURI(ev) == if u.rawQuery != "" then u.path + "?" + u.rawQuery else u.path;
    JoinedHeadersRoundTrip(req.host, req.header);
    V2HeaderOfRoundTrip(req);
  }

  /** Joining changes nothing in a header with exactly one value under every key. */
  lemma JoinedHeaderOfSingles(header: Header)
    requires forall k :: k in header ==> |header[k]| == 1
    ensures JoinedHeader(header) == header
  {
    var j := JoinedHeader(header);
    forall k | k in header ensures k in j && j[k] == header[k] {
      assert header[k] == [header[k][0]];
    }
    MapsEqual(j, header);
  }

  /** A header with exactly one value under every key survives the 2.0 round trip unchanged. */
  lemma V2RoundTripHeader(req: HttpRequest)
    requires Carriable(req)
    requires '#' !in req.url.value.rawQuery && Url.NoCTL(req.url.value.rawQuery)
    requires forall k :: k in req.header ==> |req.header[k]| == 1
    ensures V2HttpRequest(ToRequestV2(req)).Success?
    ensures V2HttpRequest(ToRequestV2(req)).value.header == req.header
  {
    V2RoundTrip(req);
    JoinedHeaderOfSingles(req.header);
  }

  /** The 2.0 envelope carries the decoded path as rawPath, and the same path fails there too. */
  lemma PercentPathBreaksV2RoundTrip()
    ensures var req := HttpRequest("GET", "HTTP/1.1", 1, 1, map[], 0, [], "", "h", "/a%25b",
                                   Some(Url.URL("", "", "", "/a%b", "", "")));
      V2HttpRequest(ToRequestV2(req)) == Failure(NilUrl)
  {
    var req := HttpRequest("GET", "HTTP/1.1", 1, 1, map[], 0, [], "", "h", "/a%25b",
                           Some(Url.URL("", "", "", "/a%b", "", "")));
    var ev := ToRequestV2(req);
    assert V2RequestURI(ev) == "/a%b";
    PercentPathRefused();
  }
}
