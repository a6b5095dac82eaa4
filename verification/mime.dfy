/**
 * mime.ParseMediaType as far as the binary/text decision needs it: the
 * lower-cased media type, or an error. Parameters are checked for syntax and
 * for duplicate names (both are errors in Go) but their values are not
 * returned; RFC 2231 continuations are not decoded.
 */
module Mime {
  import opened GoStrings
  import opened Results

  /** The tspecials of section 5.1 of RFC 2045. */
  predicate IsTSpecial(c: char) {
    c == '(' || c == ')' || c == '<' || c == '>' || c == '@' || c == ',' || c == ';' || c == ':' ||
    c == '\\' || c == '"' || c == '/' || c == '[' || c == ']' || c == '?' || c == '='
  }

  /** A printable ASCII character that is not a tspecial. */
  predicate IsTokenChar(c: char) {
    ' ' < c < '\U{7F}' && !IsTSpecial(c)
  }

  predicate IsToken(s: string) {
    |s| > 0 && forall i :: 0 <= i < |s| ==> IsTokenChar(s[i])
  }

  /** consumeToken: the longest prefix of token characters, and what follows it. */
  function ConsumeToken(s: string): (r: (string, string))
    ensures r.0 + r.1 == s
    ensures forall i :: 0 <= i < |r.0| ==> IsTokenChar(r.0[i])
    ensures r.1 == "" || !IsTokenChar(r.1[0])
  {
    if |s| == 0 || !IsTokenChar(s[0]) then ("", s)
    else
      var (tok, rest) := ConsumeToken(s[1..]);
      assert [s[0]] + tok + rest == s by {
        assert [s[0]] + tok + rest == [s[0]] + (tok + rest);
      }
      assert forall i :: 0 < i <= |tok| ==> ([s[0]] + tok)[i] == tok[i - 1];
      ([s[0]] + tok, rest)
  }

  lemma {:induction false} ConsumeWholeToken(t: string, rest: string)
    requires forall i :: 0 <= i < |t| ==> IsTokenChar(t[i])
    requires rest == "" || !IsTokenChar(rest[0])
    ensures ConsumeToken(t + rest) == (t, rest)
    decreases |t|
  {
    if |t| == 0 {
      assert t + rest == rest;
    } else {
      assert (t + rest)[1..] == t[1..] + rest;
      ConsumeWholeToken(t[1..], rest);
      assert [t[0]] + t[1..] == t;
    }
  }

  /** checkMediaTypeDisposition: a token, optionally followed by '/' and a second token. */
  predicate MediaTypeOk(s: string) {
    var (typ, rest) := ConsumeToken(s);
    typ != "" &&
    (rest == "" ||
      (rest[0] == '/' && var (sub, rest2) := ConsumeToken(rest[1..]); sub != "" && rest2 == ""))
  }

  /**
   * The rest of a quoted string after its opening quote, from index `i` on:
   * the text after the closing quote, or None when a CR or LF comes first or
   * the quote is never closed. A backslash before a tspecial escapes it.
   */
  function QuotedRest(v: string, i: nat): (r: Option<string>)
    requires 1 <= i <= |v|
    ensures r.Some? ==> |r.value| < |v|
    decreases |v| - i
  {
    if i == |v| then None
    else if v[i] == '"' then Some(v[i + 1..])
    else if v[i] == '\\' && i + 1 < |v| && IsTSpecial(v[i + 1]) then
      if i + 2 == |v| then None else QuotedRest(v, i + 2)
    else if v[i] == '\r' || v[i] == '\n' then None
    else QuotedRest(v, i + 1)
  }

  /** consumeValue: a token or a quoted string; None when neither is there. */
  function ConsumeValue(v: string): (r: Option<string>)
    ensures r.Some? ==> |r.value| < |v|
  {
    if |v| == 0 then None
    else if v[0] != '"' then
      var (tok, rest) := ConsumeToken(v);
      if tok == "" then None else Some(rest)
    else QuotedRest(v, 1)
  }

  /** consumeMediaParam: "; name = value" with white space allowed around each part. */
  function ConsumeMediaParam(v: string): (r: Option<(string, string)>)
    ensures r.Some? ==> |r.value.1| < |v| && r.value.0 != ""
  {
    var r0 := TrimLeftSpace(v);
    if !HasPrefix(r0, ";") then None
    else
      var (name, r1) := ConsumeToken(TrimLeftSpace(r0[1..]));
      var key := ToLower(name);
      if key == "" then None
      else
        var r2 := TrimLeftSpace(r1);
        if !HasPrefix(r2, "=") then None
        else match ConsumeValue(TrimLeftSpace(r2[1..]))
          case None => None
          case Some(rest) => Some((key, rest))
  }

  /**
   * The parameter loop: every parameter must parse and no name may repeat;
   * a lone trailing ';' is allowed.
   */
  function ParamsOk(v: string, seen: set<string>): bool
    decreases |v|
  {
    var t := TrimLeftSpace(v);
    if t == "" then true
    else match ConsumeMediaParam(t)
      case None => TrimSpace(t) == ";"
      case Some((key, rest)) => key !in seen && ParamsOk(rest, seen + {key})
  }

  /**
   * mime.ParseMediaType: the text before the first ';', lower-cased and
   * trimmed, is the media type; it must be a token or token/token and the
   * parameters must parse. None stands for the error.
   */
  function ParseMediaType(v: string): (r: Option<string>)
    ensures r.Some? ==> MediaTypeOk(r.value) && LowerCased(r.value)
  {
    var base := Cut(v, ';').0;
    var mt := TrimSpace(ToLower(base));
    if MediaTypeOk(mt) && ParamsOk(v[|base|..], {}) then
      TrimSpaceLowerCased(ToLower(base));
      Some(mt)
    else None
  }

  predicate LowerCased(s: string) {
    forall i :: 0 <= i < |s| ==> !IsAsciiUpper(s[i])
  }

  lemma TrimSpaceLowerCased(s: string)
    requires LowerCased(s)
    ensures LowerCased(TrimSpace(s))
  {
    var l := TrimLeftSpace(s);
    assert l == s[|s| - |l|..];
    assert LowerCased(l) by {
      forall i | 0 <= i < |l| ensures !IsAsciiUpper(l[i]) {
        assert l[i] == s[|s| - |l| + i];
      }
    }
    var t := TrimRightSpace(l);
    assert t == l[..|t|];
    forall i | 0 <= i < |t| ensures !IsAsciiUpper(t[i]) {
      assert t[i] == l[i];
    }
  }

  lemma ToLowerLowerCased(s: string)
    requires LowerCased(s)
    ensures ToLower(s) == s
  {
    var l := ToLower(s);
    forall i | 0 <= i < |s| ensures l[i] == s[i] {
      assert !IsAsciiUpper(s[i]);
    }
  }

  lemma MediaTypeOkOf(typ: string, sub: string)
    requires IsToken(typ) && IsToken(sub)
    ensures MediaTypeOk(typ + "/" + sub)
  {
    var s := typ + "/" + sub;
    assert s == typ + ("/" + sub);
    ConsumeWholeToken(typ, "/" + sub);
    assert ("/" + sub)[1..] == sub + "";
    ConsumeWholeToken(sub, "");
  }

  lemma BareMediaTypeChars(typ: string, sub: string)
    requires IsToken(typ) && IsToken(sub)
    requires LowerCased(typ) && LowerCased(sub)
    ensures var s := typ + "/" + sub; ';' !in s && LowerCased(s) && !IsSpace(s[0]) && !IsSpace(s[|s| - 1])
  {
    var s := typ + "/" + sub;
    forall i | 0 <= i < |s| ensures s[i] != ';' && !IsAsciiUpper(s[i]) {
      if i < |typ| { assert s[i] == typ[i]; }
      else if i > |typ| { assert s[i] == sub[i - |typ| - 1]; }
    }
    assert s[0] == typ[0];
    assert s[|s| - 1] == sub[|sub| - 1];
  }

  lemma TrimLowerUnchanged(s: string)
    requires LowerCased(s) && |s| > 0 && !IsSpace(s[0]) && !IsSpace(s[|s| - 1])
    ensures TrimSpace(ToLower(s)) == s
  {
    ToLowerLowerCased(s);
    assert TrimLeftSpace(s) == s;
    assert TrimRightSpace(s) == s;
  }

  /** The media-type half of ParseMediaType leaves a bare lower-case type/subtype as it is. */
  lemma BareMediaTypeParts(typ: string, sub: string)
    requires IsToken(typ) && IsToken(sub)
    requires LowerCased(typ) && LowerCased(sub)
    ensures var s := typ + "/" + sub; ';' !in s && Cut(s, ';').0 == s && TrimSpace(ToLower(s)) == s
  {
    BareMediaTypeChars(typ, sub);
    TrimLowerUnchanged(typ + "/" + sub);
  }

  lemma ParseWithoutParameters(s: string)
    requires Cut(s, ';').0 == s
    requires TrimSpace(ToLower(s)) == s
    requires MediaTypeOk(s)
    ensures ParseMediaType(s) == Some(s)
  {
    assert s[|s|..] == "";
    assert ParamsOk("", {});
  }

  /** A lower-case type/subtype with no parameters parses as itself. */
  lemma ParseBareMediaType(typ: string, sub: string)
    requires IsToken(typ) && IsToken(sub)
    requires LowerCased(typ) && LowerCased(sub)
    ensures var s := typ + "/" + sub; ParseMediaType(s) == Some(s)
  {
    BareMediaTypeParts(typ, sub);
    MediaTypeOkOf(typ, sub);
    ParseWithoutParameters(typ + "/" + sub);
  }

  lemma TrimLeftSpaceStop(s: string)
    requires |s| > 0 && !IsSpace(s[0])
    ensures TrimLeftSpace(s) == s
  {
  }

  lemma TrimLeftOneSpace(s: string)
    requires |s| > 0 && !IsSpace(s[0])
    ensures TrimLeftSpace(" " + s) == s
  {
    assert (" " + s)[1..] == s;
  }

  /** A token value ends the parameter cleanly. */
  lemma ConsumeTokenValue(val: string)
    requires IsToken(val)
    ensures ConsumeValue(val) == Some("")
  {
    assert val + "" == val;
    ConsumeWholeToken(val, "");
  }

  /** After "; " comes the parameter text itself. */
  lemma ParameterLead(tail: string)
    requires |tail| > 0 && !IsSpace(tail[0])
    ensures var v := "; " + tail; TrimLeftSpace(v) == v && HasPrefix(v, ";") && TrimLeftSpace(v[1..]) == tail
  {
    var v := "; " + tail;
    assert !IsSpace(v[0]);
    TrimLeftSpaceStop(v);
    assert v[1..] == " " + tail;
    TrimLeftOneSpace(tail);
  }

  /** "name=value": the name is one token and the value another. */
  lemma NameThenValue(name: string, val: string)
    requires IsToken(name) && IsToken(val)
    ensures ConsumeToken(name + "=" + val) == (name, "=" + val)
    ensures TrimLeftSpace("=" + val) == "=" + val && ("=" + val)[1..] == val
    ensures TrimLeftSpace(val) == val && ConsumeValue(val) == Some("")
  {
    assert name + "=" + val == name + ("=" + val);
    ConsumeWholeToken(name, "=" + val);
    TrimLeftSpaceStop("=" + val);
    assert ("=" + val)[1..] == val;
    assert !IsSpace(val[0]);
    TrimLeftSpaceStop(val);
    ConsumeTokenValue(val);
  }

  /** The text "; name=value". */
  function Parameter(name: string, val: string): string {
    "; " + (name + "=" + val)
  }

  /** consumeMediaParam, given how each of its steps goes on `v`. */
  lemma ConsumeMediaParamSteps(v: string, tail: string, name: string, val: string)
    requires TrimLeftSpace(v) == v && HasPrefix(v, ";") && TrimLeftSpace(v[1..]) == tail
    requires ConsumeToken(tail) == (name, "=" + val) && ToLower(name) == name && name != ""
    requires TrimLeftSpace("=" + val) == "=" + val && ("=" + val)[1..] == val
    requires TrimLeftSpace(val) == val && ConsumeValue(val) == Some("")
    ensures ConsumeMediaParam(v) == Some((name, ""))
  {
  }

  /** "; name=value" with a lower-case token name and a token value is one well-formed parameter. */
  lemma ConsumeOneParameter(name: string, val: string)
    requires IsToken(name) && LowerCased(name) && IsToken(val)
    ensures ConsumeMediaParam(Parameter(name, val)) == Some((name, ""))
  {
    var tail := name + "=" + val;
    var v := "; " + tail;
    assert TrimLeftSpace(v) == v && HasPrefix(v, ";") && TrimLeftSpace(v[1..]) == tail by {
      assert tail[0] == name[0] && IsTokenChar(name[0]);
      ParameterLead(tail);
    }
    assert ConsumeToken(tail) == (name, "=" + val) && ToLower(name) == name && name != "" by {
      NameThenValue(name, val);
      ToLowerLowerCased(name);
    }
    assert TrimLeftSpace("=" + val) == "=" + val && ("=" + val)[1..] == val &&
      TrimLeftSpace(val) == val && ConsumeValue(val) == Some("") by {
      NameThenValue(name, val);
    }
    ConsumeMediaParamSteps(v, tail, name, val);
  }

  /** The parameter list of "; name=value" is well formed. */
  lemma OneParameterOk(name: string, val: string)
    requires IsToken(name) && LowerCased(name) && IsToken(val)
    ensures ParamsOk(Parameter(name, val), {})
  {
    var v := Parameter(name, val);
    assert !IsSpace(v[0]);
    TrimLeftSpaceStop(v);
    ConsumeOneParameter(name, val);
    assert ParamsOk("", {name});
  }

  /** Well-formed parameters after a media type leave the media type as it is. */
  lemma ParseMediaTypeAppendParams(mt: string, p: string)
    requires ';' !in mt && TrimSpace(ToLower(mt)) == mt && MediaTypeOk(mt)
    requires |p| > 0 && p[0] == ';' && ParamsOk(p, {})
    ensures ParseMediaType(mt + p) == Some(mt)
  {
    CutBeforeSeparator(mt, p, ';');
  }

  /** "type/subtype; name=value", all tokens and lower case, has the media type "type/subtype". */
  lemma ParseMediaTypeWithParameter(typ: string, sub: string, name: string, val: string)
    requires IsToken(typ) && IsToken(sub) && LowerCased(typ) && LowerCased(sub)
    requires IsToken(name) && LowerCased(name) && IsToken(val)
    ensures ParseMediaType(typ + "/" + sub + Parameter(name, val)) == Some(typ + "/" + sub)
  {
    var mt := typ + "/" + sub;
    var p := Parameter(name, val);
    assert ';' !in mt && TrimSpace(ToLower(mt)) == mt && MediaTypeOk(mt) by {
      BareMediaTypeParts(typ, sub);
      MediaTypeOkOf(typ, sub);
    }
    assert |p| > 0 && p[0] == ';' && ParamsOk(p, {}) by {
      OneParameterOk(name, val);
    }
    ParseMediaTypeAppendParams(mt, p);
  }

}
