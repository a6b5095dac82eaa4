/**
 * The parts of Go's net/url the translators rely on: url.Parse for the
 * request URI, percent-decoding, and the query codec (QueryEscape,
 * ParseQuery, Values.Encode). Each is written out as a function on the byte
 * view of strings, simplified where the adaptation layer cannot reach (see
 * README), so that the translators' round trips are proved rather than
 * presumed.
 */
module Url {
  import opened GoStrings
  import opened Results
  import opened KeyOrder

  /**
   * url.URL without the fields the adaptation layer never reads: user info,
   * RawPath, ForceQuery, OmitHost and RawFragment.
   */
  datatype URL = URL(scheme: string, opaqueData: string, host: string, path: string, rawQuery: string, fragment: string)

  /** url.Values: each query key with its values in order. */
  type Values = map<string, seq<string>>

  // ---------------------------------------------------------------- hex digits

  predicate IsHex(c: char) {
    IsDigit(c) || 'a' <= c <= 'f' || 'A' <= c <= 'F'
  }

  function UnHex(c: char): (n: int)
    requires IsHex(c)
    ensures 0 <= n < 16
  {
    if IsDigit(c) then c as int - '0' as int
    else if 'a' <= c <= 'f' then c as int - 'a' as int + 10
    else c as int - 'A' as int + 10
  }

  /** The upper-case digit Go's escaper writes. */
  function HexDigit(n: int): (c: char)
    requires 0 <= n < 16
    ensures IsHex(c) && UnHex(c) == n
    ensures IsDigit(c) || 'A' <= c <= 'F'
  {
    if n < 10 then (n + '0' as int) as char else (n - 10 + 'A' as int) as char
  }

  // ---------------------------------------------------------------- unescaping

  /**
   * url's unescape for the path, fragment and query-component modes:
   * "%XY" with two hex digits is the byte 0xXY, a malformed escape is an
   * error, and '+' is a space only in a query component.
   */
  function Unescape(s: string, plusIsSpace: bool): (r: Option<string>)
    ensures r.Some? && '%' !in s ==> |r.value| == |s|
    decreases |s|
  {
    if |s| == 0 then Some("")
    else if s[0] == '%' then
      if |s| < 3 || !IsHex(s[1]) || !IsHex(s[2]) then None
      else match Unescape(s[3..], plusIsSpace)
        case None => None
        case Some(t) => Some([(UnHex(s[1]) * 16 + UnHex(s[2])) as char] + t)
    else
      match Unescape(s[1..], plusIsSpace)
      case None => None
      case Some(t) => Some([if s[0] == '+' && plusIsSpace then ' ' else s[0]] + t)
  }

  /** Without a '%' to decode, a path or fragment is taken as written. */
  lemma {:induction false} UnescapePlain(s: string)
    requires '%' !in s
    ensures Unescape(s, false) == Some(s)
    decreases |s|
  {
    if |s| > 0 {
      assert '%' !in s[1..] by {
        forall i | 0 <= i < |s[1..]| ensures s[1..][i] != '%' {
          assert s[1..][i] == s[i + 1];
        }
      }
      UnescapePlain(s[1..]);
      assert [s[0]] + s[1..] == s;
    }
  }

  /** url.QueryUnescape. */
  function QueryUnescape(s: string): Option<string> {
    Unescape(s, true)
  }

  // ---------------------------------------------------------------- escaping

  /** The characters QueryEscape writes unchanged (section 2.3 of RFC 3986). */
  predicate IsUnreserved(c: char) {
    IsAlpha(c) || IsDigit(c) || c == '-' || c == '_' || c == '.' || c == '~'
  }

  /**
   * The characters QueryEscape can produce. A character above 0xFF lies
   * outside the byte view and is kept as it is.
   */
  predicate IsEscapedChar(c: char) {
    IsUnreserved(c) || c == '+' || c == '%' || c as int >= 256
  }

  function EscapeChar(c: char): (e: string)
    ensures |e| > 0 && forall i :: 0 <= i < |e| ==> IsEscapedChar(e[i])
  {
    if IsUnreserved(c) || c as int >= 256 then [c]
    else if c == ' ' then "+"
    else ['%', HexDigit(c as int / 16), HexDigit(c as int % 16)]
  }

  /** url.QueryEscape: unreserved bytes kept, space as '+', every other byte as "%XY". */
  function QueryEscape(s: string): (r: string)
    ensures forall i :: 0 <= i < |r| ==> IsEscapedChar(r[i])
    ensures |r| >= |s|
  {
    if |s| == 0 then "" else EscapeChar(s[0]) + QueryEscape(s[1..])
  }

  lemma UnescapeEscapeChar(c: char, t: string)
    ensures Unescape(EscapeChar(c) + t, true) ==
      match Unescape(t, true) case None => None case Some(u) => Some([c] + u)
  {
    var e := EscapeChar(c);
    if IsUnreserved(c) || c as int >= 256 {
      assert (e + t)[1..] == t;
    } else if c == ' ' {
      assert (e + t)[1..] == t;
    } else {
      assert (e + t)[3..] == t;
      assert (c as int / 16) * 16 + c as int % 16 == c as int;
    }
  }

  /** QueryUnescape undoes QueryEscape. */
  lemma {:induction false} QueryUnescapeEscape(s: string)
    ensures QueryUnescape(QueryEscape(s)) == Some(s)
    decreases |s|
  {
    if |s| > 0 {
      QueryUnescapeEscape(s[1..]);
      UnescapeEscapeChar(s[0], QueryEscape(s[1..]));
      assert [s[0]] + s[1..] == s;
    }
  }

  // ---------------------------------------------------------------- query codec

  /** The '&'-separated pieces parseQuery walks through, in order; a trailing '&' adds none. */
  function Segments(q: string): (segs: seq<string>)
    ensures forall i :: 0 <= i < |segs| ==> '&' !in segs[i]
    decreases |q|
  {
    if |q| == 0 then []
    else
      var (seg, rest, _) := Cut(q, '&');
      [seg] + Segments(rest)
  }

  /**
   * One step of parseQuery: a piece holding ';' is refused, an empty one
   * skipped, any other is cut at its first '=' and both halves unescaped;
   * a piece whose halves do not unescape is skipped, otherwise the value is
   * appended under the key.
   */
  function AddSegment(v: Values, seg: string): (r: Values)
    ensures forall k :: k in v ==> k in r
  {
    if ';' in seg || seg == "" then v
    else
      var (key, value, _) := Cut(seg, '=');
      match (QueryUnescape(key), QueryUnescape(value))
      case (Some(k), Some(x)) => v[k := (if k in v then v[k] else []) + [x]]
      case _ => v
  }

  function AddSegments(v: Values, segs: seq<string>): (r: Values)
    decreases |segs|
  {
    if |segs| == 0 then v else AddSegments(AddSegment(v, segs[0]), segs[1..])
  }

  predicate AllNonEmpty(v: Values) {
    forall k :: k in v ==> |v[k]| > 0
  }

  lemma {:induction false} AddSegmentsNonEmpty(v: Values, segs: seq<string>)
    requires AllNonEmpty(v)
    ensures AllNonEmpty(AddSegments(v, segs))
    decreases |segs|
  {
    if |segs| > 0 {
      AddSegmentsNonEmpty(AddSegment(v, segs[0]), segs[1..]);
    }
  }

  /**
   * url.ParseQuery with its error dropped, which is what URL.Query does.
   * Every key it yields carries at least one value.
   */
  function ParseQuery(q: string): (v: Values)
    ensures AllNonEmpty(v)
  {
    var empty: Values := map[];
    AddSegmentsNonEmpty(empty, Segments(q));
    AddSegments(empty, Segments(q))
  }

  /** URL.Query. */
  function Query(u: URL): (v: Values)
    ensures AllNonEmpty(v)
  {
    ParseQuery(u.rawQuery)
  }

  /** The "key=value" pieces Encode writes for one key, one per value. */
  function PairsOf(key: string, vs: seq<string>): (ps: seq<string>)
    ensures |ps| == |vs|
  {
    if |vs| == 0 then [] else [QueryEscape(key) + "=" + QueryEscape(vs[0])] + PairsOf(key, vs[1..])
  }

  function Pairs(v: Values, keys: seq<string>): seq<string>
    requires forall i :: 0 <= i < |keys| ==> keys[i] in v
  {
    if |keys| == 0 then [] else PairsOf(keys[0], v[keys[0]]) + Pairs(v, keys[1..])
  }

  /** url.Values.Encode: the pieces of every key in sorted order, joined with '&'. */
  function Encode(v: Values): string {
    Join(Pairs(v, SortedKeys(v.Keys)), "&")
  }

  // ---------------------------------------------------------------- query round trip

  predicate NoAmpersandPieces(items: seq<string>) {
    forall i :: 0 <= i < |items| ==> |items[i]| > 0 && '&' !in items[i]
  }

  /** The first piece before an '&' is split off whole. */
  lemma SegmentsStep(a: string, rest: string)
    requires |a| > 0 && '&' !in a
    ensures Segments(a + "&" + rest) == [a] + Segments(rest)
  {
    assert a + "&" + rest == a + ['&'] + rest;
    CutAtFirst(a, '&', rest);
  }

  /** Splitting a join of non-empty, '&'-free pieces gives the pieces back. */
  lemma {:induction false} SegmentsJoin(items: seq<string>)
    requires NoAmpersandPieces(items)
    ensures Segments(Join(items, "&")) == items
    decreases |items|
  {
    if |items| == 1 {
      assert Cut(items[0], '&') == (items[0], "", false);
    } else if |items| > 1 {
      var tail := items[1..];
      assert NoAmpersandPieces(tail) by {
        forall i | 0 <= i < |tail| ensures |tail[i]| > 0 && '&' !in tail[i] {
          assert tail[i] == items[i + 1];
        }
      }
      SegmentsStep(items[0], Join(tail, "&"));
      SegmentsJoin(tail);
      assert [items[0]] + tail == items;
    }
  }

  lemma {:induction false} AddSegmentsAppend(v: Values, a: seq<string>, b: seq<string>)
    ensures AddSegments(v, a + b) == AddSegments(AddSegments(v, a), b)
    decreases |a|
  {
    if |a| == 0 {
      assert a + b == b;
    } else {
      assert (a + b)[0] == a[0];
      assert (a + b)[1..] == a[1..] + b;
      AddSegmentsAppend(AddSegment(v, a[0]), a[1..], b);
    }
  }

  lemma NoEscapedSeparator(s: string)
    ensures '&' !in QueryEscape(s) && '=' !in QueryEscape(s) && ';' !in QueryEscape(s)
  {
    var e := QueryEscape(s);
    forall i | 0 <= i < |e| ensures e[i] != '&' && e[i] != '=' && e[i] != ';' {
      assert IsEscapedChar(e[i]);
    }
  }

  /** One piece Encode writes is parsed back into its key and value. */
  lemma AddSegmentPair(v: Values, key: string, x: string)
    ensures AddSegment(v, QueryEscape(key) + "=" + QueryEscape(x)) ==
      v[key := (if key in v then v[key] else []) + [x]]
  {
    var ek, ex := QueryEscape(key), QueryEscape(x);
    var seg := ek + "=" + ex;
    NoEscapedSeparator(key);
    NoEscapedSeparator(x);
    assert seg == ek + ['='] + ex;
    CutAtFirst(ek, '=', ex);
    assert ';' !in seg by {
      forall i | 0 <= i < |seg| ensures seg[i] != ';' {
        if i < |ek| { assert seg[i] == ek[i]; }
        else if i > |ek| { assert seg[i] == ex[i - |ek| - 1]; }
      }
    }
    QueryUnescapeEscape(key);
    QueryUnescapeEscape(x);
  }

  lemma AppendTwice(v: Values, key: string, before: seq<string>, vs: seq<string>)
    requires |vs| > 0
    ensures var v1 := v[key := before + [vs[0]]];
      (if |vs[1..]| == 0 then v1 else v1[key := (if key in v1 then v1[key] else []) + vs[1..]])
      == v[key := before + vs]
  {
    if |vs| == 1 {
      assert vs == [vs[0]];
    } else {
      assert (before + [vs[0]]) + vs[1..] == before + vs;
    }
  }

  /** Parsing one key's pieces appends its values, in order, under that key. */
  lemma {:induction false} AddSegmentsPairsOf(v: Values, key: string, vs: seq<string>)
    ensures AddSegments(v, PairsOf(key, vs)) ==
      if |vs| == 0 then v else v[key := (if key in v then v[key] else []) + vs]
    decreases |vs|
  {
    if |vs| > 0 {
      var ps := PairsOf(key, vs);
      assert ps[0] == QueryEscape(key) + "=" + QueryEscape(vs[0]);
      assert ps[1..] == PairsOf(key, vs[1..]);
      var before := if key in v then v[key] else [];
      AddSegmentPair(v, key, vs[0]);
      var v1 := v[key := before + [vs[0]]];
      assert AddSegments(v, ps) == AddSegments(v1, ps[1..]);
      AddSegmentsPairsOf(v1, key, vs[1..]);
      AppendTwice(v, key, before, vs);
    }
  }

  lemma PairsPieces(v: Values, keys: seq<string>)
    requires forall i :: 0 <= i < |keys| ==> keys[i] in v
    ensures NoAmpersandPieces(Pairs(v, keys))
    decreases |keys|
  {
    if |keys| > 0 {
      PairsPieces(v, keys[1..]);
      PairsOfPieces(keys[0], v[keys[0]]);
    }
  }

  /** A character other than '=' found in neither half is not in "a=b". */
  lemma NotAroundEquals(a: string, b: string, c: char)
    requires c != '=' && c !in a && c !in b
    ensures c !in a + "=" + b
  {
    var s := a + "=" + b;
    forall i | 0 <= i < |s| ensures s[i] != c {
      if i < |a| { assert s[i] == a[i]; }
      else if i > |a| { assert s[i] == b[i - |a| - 1]; }
    }
  }

  lemma {:induction false} PairsOfPieces(key: string, vs: seq<string>)
    ensures NoAmpersandPieces(PairsOf(key, vs))
    decreases |vs|
  {
    if |vs| > 0 {
      PairsOfPieces(key, vs[1..]);
      NoEscapedSeparator(key);
      NoEscapedSeparator(vs[0]);
      NotAroundEquals(QueryEscape(key), QueryEscape(vs[0]), '&');
    }
  }

  /** Parsing the pieces of the first key stores its values, then the other keys' pieces follow. */
  lemma AddSegmentsPairsStep(acc: Values, v: Values, keys: seq<string>)
    requires |keys| > 0 && keys[0] !in acc
    requires forall i :: 0 <= i < |keys| ==> keys[i] in v
    ensures |v[keys[0]]| > 0 ==>
      AddSegments(acc, Pairs(v, keys)) == AddSegments(acc[keys[0] := v[keys[0]]], Pairs(v, keys[1..]))
  {
    var k := keys[0];
    var rest := Pairs(v, keys[1..]);
    assert Pairs(v, keys) == PairsOf(k, v[k]) + rest;
    AddSegmentsAppend(acc, PairsOf(k, v[k]), rest);
    AddSegmentsPairsOf(acc, k, v[k]);
    assert [] + v[k] == v[k];
  }

  /** Parsing the pieces of distinct fresh keys adds exactly those keys with their values. */
  lemma {:induction false} AddSegmentsPairs(acc: Values, v: Values, keys: seq<string>)
    requires forall i :: 0 <= i < |keys| ==> keys[i] in v && |v[keys[i]]| > 0 && keys[i] !in acc
    requires forall i, j :: 0 <= i < j < |keys| ==> keys[i] != keys[j]
    ensures forall k :: k in AddSegments(acc, Pairs(v, keys)) <==> k in acc || k in keys
    ensures forall k :: k in AddSegments(acc, Pairs(v, keys)) ==>
      AddSegments(acc, Pairs(v, keys))[k] == if k in acc then acc[k] else v[k]
    decreases |keys|
  {
    if |keys| > 0 {
      var k := keys[0];
      var rest := keys[1..];
      var acc1 := acc[k := v[k]];
      AddSegmentsPairsStep(acc, v, keys);
      forall i | 0 <= i < |rest| ensures rest[i] in v && |v[rest[i]]| > 0 && rest[i] !in acc1 {
        assert rest[i] == keys[i + 1];
      }
      forall i, j | 0 <= i < j < |rest| ensures rest[i] != rest[j] {
        assert rest[i] == keys[i + 1] && rest[j] == keys[j + 1];
      }
      AddSegmentsPairs(acc1, v, rest);
      assert forall k' :: k' in keys <==> k' == k || k' in rest;
    }
  }

  /** Parsing a join of non-empty, '&'-free pieces processes exactly those pieces. */
  lemma ParseQueryJoin(items: seq<string>)
    requires NoAmpersandPieces(items)
    ensures ParseQuery(Join(items, "&")) == AddSegments(map[], items)
  {
    SegmentsJoin(items);
  }

  /** ParseQuery undoes Encode, for values in which every key has a value. */
  lemma ParseQueryEncode(v: Values)
    requires AllNonEmpty(v)
    ensures ParseQuery(Encode(v)) == v
  {
    var keys := SortedKeys(v.Keys);
    SortedDistinct(keys);
    var empty: Values := map[];
    forall i | 0 <= i < |keys| ensures keys[i] in v && |v[keys[i]]| > 0 && keys[i] !in empty {
      assert keys[i] in v;
    }
    PairsPieces(v, keys);
    ParseQueryJoin(Pairs(v, keys));
    AddSegmentsPairs(empty, v, keys);
    var r := AddSegments(empty, Pairs(v, keys));
    assert ParseQuery(Encode(v)) == r;
    MapsEqual(r, v);
  }

  /** What Encode writes contains neither '#' nor a control byte. */
  lemma EncodeSafe(v: Values)
    ensures '#' !in Encode(v) && NoCTL(Encode(v))
  {
    var keys := SortedKeys(v.Keys);
    PairsSafe(v, keys);
    JoinSafe(Pairs(v, keys));
  }

  predicate IsQueryChar(c: char) {
    IsEscapedChar(c) || c == '=' || c == '&'
  }

  predicate AllQueryChars(s: string) {
    forall i :: 0 <= i < |s| ==> IsQueryChar(s[i])
  }

  lemma {:induction false} PairsOfSafe(key: string, vs: seq<string>)
    ensures forall i :: 0 <= i < |PairsOf(key, vs)| ==> AllQueryChars(PairsOf(key, vs)[i])
    decreases |vs|
  {
    if |vs| > 0 {
      PairsOfSafe(key, vs[1..]);
      var ek, ex := QueryEscape(key), QueryEscape(vs[0]);
      var seg := ek + "=" + ex;
      forall i | 0 <= i < |seg| ensures IsQueryChar(seg[i]) {
        if i < |ek| { assert seg[i] == ek[i]; }
        else if i > |ek| { assert seg[i] == ex[i - |ek| - 1]; }
      }
    }
  }

  lemma {:induction false} PairsSafe(v: Values, keys: seq<string>)
    requires forall i :: 0 <= i < |keys| ==> keys[i] in v
    ensures forall i :: 0 <= i < |Pairs(v, keys)| ==> AllQueryChars(Pairs(v, keys)[i])
    decreases |keys|
  {
    if |keys| > 0 {
      PairsSafe(v, keys[1..]);
      PairsOfSafe(keys[0], v[keys[0]]);
    }
  }

  lemma {:induction false} JoinSafe(items: seq<string>)
    requires forall i :: 0 <= i < |items| ==> AllQueryChars(items[i])
    ensures AllQueryChars(Join(items, "&"))
    ensures '#' !in Join(items, "&") && NoCTL(Join(items, "&"))
    decreases |items|
  {
    if |items| > 1 {
      JoinSafe(items[1..]);
      var a, b := items[0], Join(items[1..], "&");
      var s := a + "&" + b;
      forall i | 0 <= i < |s| ensures IsQueryChar(s[i]) {
        if i < |a| { assert s[i] == a[i]; }
        else if i > |a| { assert s[i] == b[i - |a| - 1]; }
      }
    }
    var s := Join(items, "&");
    forall i | 0 <= i < |s| ensures s[i] != '#' && !IsCTL(s[i]) {
      assert IsQueryChar(s[i]);
    }
  }

  // ---------------------------------------------------------------- url.Parse

  /** Go's stringContainsCTLByte test, one byte at a time. */
  predicate IsCTL(c: char) {
    c < ' ' || c == '\U{7F}'
  }

  predicate NoCTL(s: string) {
    forall i :: 0 <= i < |s| ==> !IsCTL(s[i])
  }

  /**
   * getScheme: a leading run of letters, then digits, '+', '-' or '.',
   * ended by ':' is the scheme; a ':' in first place is the "missing
   * protocol scheme" error (None); anything else means no scheme at all.
   */
  function GetScheme(s: string): (r: Option<(string, string)>)
    ensures r.Some? && r.value.0 != "" ==> s == r.value.0 + ":" + r.value.1
    ensures r.Some? && r.value.0 == "" ==> r.value.1 == s
    ensures r.None? <==> |s| > 0 && s[0] == ':'
  {
    SchemeFrom(s, 0)
  }

  function SchemeFrom(s: string, i: nat): (r: Option<(string, string)>)
    requires i <= |s|
    requires forall j :: 0 <= j < i ==> IsAlpha(s[j]) || (j > 0 && (IsDigit(s[j]) || s[j] in "+-."))
    ensures r.Some? && r.value.0 != "" ==> s == r.value.0 + ":" + r.value.1
    ensures r.Some? && r.value.0 == "" ==> r.value.1 == s
    ensures r.None? <==> i == 0 && |s| > 0 && s[0] == ':'
    decreases |s| - i
  {
    if i == |s| then Some(("", s))
    else
      var c := s[i];
      if IsAlpha(c) then SchemeFrom(s, i + 1)
      else if IsDigit(c) || c == '+' || c == '-' || c == '.' then
        if i == 0 then Some(("", s)) else SchemeFrom(s, i + 1)
      else if c == ':' then
        if i == 0 then None
        else
          assert s == s[..i] + ":" + s[i + 1..];
          Some((s[..i], s[i + 1..]))
      else Some(("", s))
  }

  /** parseAuthority reduced to its split: the host runs up to the first '/'. */
  function SplitAuthority(s: string): (r: (string, string))
    ensures r.0 + r.1 == s
    ensures '/' !in r.0 && (r.1 == "" || r.1[0] == '/')
  {
    var (authority, rest, found) := Cut(s, '/');
    if found then (authority, "/" + rest) else (s, "")
  }

  /**
   * url.Parse: the fragment is cut off at the first '#' and decoded; the
   * rest is refused when it holds a control byte, is taken as the path when
   * it is "*", else loses its scheme (lower-cased) and its query (after the
   * first '?'); with a scheme and no leading '/' it is opaque; without a
   * scheme a ':' in the first segment is an error; a leading "//" (not
   * "///" when there is no scheme) introduces an authority; and the path
   * is percent-decoded. None stands for every error.
   */
  function Parse(raw: string): (r: Option<URL>)
    ensures r.Some? ==> '#' !in r.value.rawQuery && '#' !in r.value.opaqueData
    ensures ('#' in raw && Cut(raw, '#').1 != "") || r.None? || r.value.fragment == ""
  {
    var (u, frag, _) := Cut(raw, '#');
    match ParseWithoutFragment(u)
    case None => None
    case Some(url) =>
      if frag == "" then Some(url)
      else match Unescape(frag, false)
        case None => None
        case Some(f) => Some(url.(fragment := f))
  }

  function ParseWithoutFragment(s: string): (r: Option<URL>)
    ensures r.Some? ==> r.value.fragment == ""
    ensures r.Some? ==> NoCTL(s)
    ensures r.Some? ==> (forall i :: 0 <= i < |r.value.rawQuery| ==> r.value.rawQuery[i] in s)
    ensures r.Some? ==> (forall i :: 0 <= i < |r.value.opaqueData| ==> r.value.opaqueData[i] in s)
  {
    if !NoCTL(s) then None
    else if s == "*" then Some(URL("", "", "", "*", "", ""))
    else match GetScheme(s)
      case None => None
      case Some((scheme0, rest0)) =>
        var scheme := ToLower(scheme0);
        var (rest, rawQuery, _) := Cut(rest0, '?');
        assert rest0 == s || rest0 == s[|scheme0| + 1..];
        assert forall i :: 0 <= i < |rawQuery| ==> rawQuery[i] in rest0;
        assert forall i :: 0 <= i < |rest| ==> rest[i] in rest0;
        if !HasPrefix(rest, "/") && scheme != "" then Some(URL(scheme, rest, "", "", rawQuery, ""))
        else if !HasPrefix(rest, "/") && ':' in Cut(rest, '/').0 then None
        else if (scheme != "" || !HasPrefix(rest, "///")) && HasPrefix(rest, "//") then
          var (host, path) := SplitAuthority(rest[2..]);
          match Unescape(path, false)
          case None => None
          case Some(p) => Some(URL(scheme, "", host, p, rawQuery, ""))
        else
          match Unescape(rest, false)
          case None => None
          case Some(p) => Some(URL(scheme, "", "", p, rawQuery, ""))
  }

  /**
   * An absolute path that url.Parse gives back exactly: it starts with one
   * '/', and holds no '%', '?', '#' or control byte.
   */
  predicate IsPlainPath(p: string) {
    HasPrefix(p, "/") && !HasPrefix(p, "//") && '%' !in p && '?' !in p && '#' !in p && NoCTL(p)
  }

  /** A plain path, optionally followed by "?" and a query free of '#' and control bytes, parses back into its parts. */
  lemma ParsePathQuery(path: string, withQuery: bool, q: string)
    requires IsPlainPath(path)
    requires withQuery || q == ""
    requires '#' !in q && NoCTL(q)
    ensures Parse(if withQuery then path + "?" + q else path) == Some(URL("", "", "", path, q, ""))
  {
    var raw := if withQuery then path + "?" + q else path;
    assert '#' !in raw && NoCTL(raw) by {
      forall i | 0 <= i < |raw| ensures raw[i] != '#' && !IsCTL(raw[i]) {
        if i < |path| { assert raw[i] == path[i]; }
        else if i > |path| { assert raw[i] == q[i - |path| - 1]; }
      }
    }
    assert raw[0] == '/';
    assert raw != "*";
    assert GetScheme(raw) == Some(("", raw));
    if withQuery {
      assert raw == path + ['?'] + q;
      CutAtFirst(path, '?', q);
    }
    assert Cut(raw, '?') == (path, q, withQuery);
    assert ToLower("") == "";
    UnescapePlain(path);
  }

  /** A path of the same shape that holds a malformed escape is refused outright. */
  lemma ParseBadEscape(path: string)
    requires HasPrefix(path, "/") && !HasPrefix(path, "//") && '?' !in path && '#' !in path && NoCTL(path)
    requires Unescape(path, false).None?
    ensures Parse(path).None?
  {
    assert path[0] == '/';
    assert path != "*";
    assert GetScheme(path) == Some(("", path));
    assert Cut(path, '?') == (path, "", false);
    assert ToLower("") == "";
  }
}
