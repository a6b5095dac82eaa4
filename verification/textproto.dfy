/**
 * textproto.CanonicalMIMEHeaderKey, the key normalisation every
 * http.Header operation applies: the first letter and each letter after a
 * hyphen in upper case, every other letter in lower case. A key holding
 * any byte that is not an RFC 7230 token character (a space, say) is left
 * exactly as it is.
 */
module TextProto {
  import opened GoStrings

  /** Go's validHeaderFieldByte: the `tchar` of section 3.2.6 of RFC 7230. */
  predicate IsTokenChar(c: char) {
    IsAlpha(c) || IsDigit(c) ||
    c == '!' || c == '#' || c == '$' || c == '%' || c == '&' || c == '\'' || c == '*' ||
    c == '+' || c == '-' || c == '.' || c == '^' || c == '_' || c == '`' || c == '|' || c == '~'
  }

  predicate AllTokenChars(s: string) {
    forall i :: 0 <= i < |s| ==> IsTokenChar(s[i])
  }

  /** One byte of the case-fixing pass. */
  function FixChar(c: char, upper: bool): char {
    if upper then ToUpperChar(c) else ToLowerChar(c)
  }

  /** The case-fixing pass; `upper` says whether the next letter starts a word. */
  function FixCase(s: string, upper: bool): (r: string)
    ensures |r| == |s|
  {
    if |s| == 0 then ""
    else
      var c := FixChar(s[0], upper);
      [c] + FixCase(s[1..], c == '-')
  }

  function CanonicalKey(s: string): (r: string)
    ensures |r| == |s|
    ensures !AllTokenChars(s) ==> r == s
  {
    if AllTokenChars(s) then FixCase(s, true) else s
  }

  predicate IsCanonical(s: string) {
    CanonicalKey(s) == s
  }

  lemma {:induction false} FixCaseKeepsTokens(s: string, upper: bool)
    requires AllTokenChars(s)
    ensures AllTokenChars(FixCase(s, upper))
    decreases |s|
  {
    if |s| > 0 {
      FixCaseKeepsTokens(s[1..], FixChar(s[0], upper) == '-');
    }
  }

  lemma {:induction false} FixCaseIdempotent(s: string, upper: bool)
    ensures FixCase(FixCase(s, upper), upper) == FixCase(s, upper)
    decreases |s|
  {
    if |s| > 0 {
      var c := FixChar(s[0], upper);
      var r := FixCase(s, upper);
      assert r == [c] + FixCase(s[1..], c == '-');
      assert r[1..] == FixCase(s[1..], c == '-');
      var c' := FixChar(c, upper);
      assert c' == c;
      FixCaseIdempotent(s[1..], c == '-');
    }
  }

  /** Canonicalising twice is canonicalising once. */
  lemma CanonicalKeyIdempotent(s: string)
    ensures IsCanonical(CanonicalKey(s))
  {
    if AllTokenChars(s) {
      FixCaseKeepsTokens(s, true);
      FixCaseIdempotent(s, true);
    }
  }

  /** Two keys that differ only in ASCII letter case canonicalise alike. */
  lemma {:induction false} FixCaseIgnoresCase(s: string, t: string, upper: bool)
    requires |s| == |t|
    requires forall i :: 0 <= i < |s| ==> ToLowerChar(s[i]) == ToLowerChar(t[i])
    ensures FixCase(s, upper) == FixCase(t, upper)
    decreases |s|
  {
    if |s| > 0 {
      var c := FixChar(s[0], upper);
      var d := FixChar(t[0], upper);
      assert c == d;
      FixCaseIgnoresCase(s[1..], t[1..], c == '-');
    }
  }

  /** Header keys are case-insensitive: keys equal up to ASCII case canonicalise alike. */
  lemma CanonicalKeyCaseInsensitive(s: string, t: string)
    requires |s| == |t| && AllTokenChars(s)
    requires forall i :: 0 <= i < |s| ==> ToLowerChar(s[i]) == ToLowerChar(t[i])
    ensures CanonicalKey(s) == CanonicalKey(t)
  {
    forall i | 0 <= i < |t| ensures IsTokenChar(t[i]) {
      assert IsTokenChar(s[i]);
      assert ToLowerChar(s[i]) == ToLowerChar(t[i]);
    }
    FixCaseIgnoresCase(s, t, true);
  }

  /** Case fixing never turns another byte into a hyphen, nor a hyphen into another byte. */
  lemma FixCharHyphen(c: char, upper: bool)
    ensures (FixChar(c, upper) == '-') == (c == '-')
  {
  }

  lemma FixCaseAppendStep(x: string, y: string, upper: bool)
    requires |x| > 0
    ensures var c := FixChar(x[0], upper);
      FixCase(x + y, upper) == [c] + FixCase(x[1..] + y, c == '-') &&
      FixCase(x, upper) == [c] + FixCase(x[1..], c == '-')
  {
    assert (x + y)[0] == x[0];
    assert (x + y)[1..] == x[1..] + y;
  }

  lemma ConsAppend(c: char, xs: string, ys: string, whole: string, tail: string, front: string)
    requires whole == [c] + tail && tail == xs + ys && front == [c] + xs
    ensures whole == front + ys
  {
  }

  lemma LastAfterStep(x: string, upper: bool)
    requires |x| > 0
    ensures (if |x[1..]| == 0 then FixChar(x[0], upper) == '-' else x[1..][|x[1..]| - 1] == '-') == (x[|x| - 1] == '-')
  {
    if |x| == 1 { FixCharHyphen(x[0], upper); } else { assert x[1..][|x| - 2] == x[|x| - 1]; }
  }

  lemma {:induction false} FixCaseAppend(x: string, y: string, upper: bool)
    ensures FixCase(x + y, upper) ==
      FixCase(x, upper) + FixCase(y, if |x| == 0 then upper else x[|x| - 1] == '-')
    decreases |x|
  {
    if |x| == 0 {
      assert x + y == y;
    } else {
      var c := FixChar(x[0], upper);
      FixCaseAppendStep(x, y, upper);
      FixCaseAppend(x[1..], y, c == '-');
      LastAfterStep(x, upper);
      var last := x[|x| - 1] == '-';
      ConsAppend(c, FixCase(x[1..], c == '-'), FixCase(y, last),
        FixCase(x + y, upper), FixCase(x[1..] + y, c == '-'), FixCase(x, upper));
    }
  }

  lemma AllTokenCharsAppend(a: string, b: string)
    requires AllTokenChars(a) && AllTokenChars(b)
    ensures AllTokenChars(a + b)
  {
    forall i | 0 <= i < |a + b| ensures IsTokenChar((a + b)[i]) {
      if i < |a| { assert (a + b)[i] == a[i]; } else { assert (a + b)[i] == b[i - |a|]; }
    }
  }

  /** Joining two canonical words with a hyphen gives a canonical key. */
  lemma HyphenJoinCanonical(a: string, b: string)
    requires |a| > 0 && AllTokenChars(a) && AllTokenChars(b)
    requires FixCase(a, true) == a && FixCase(b, true) == b
    ensures IsCanonical(a + "-" + b)
  {
    assert AllTokenChars("-") by { assert IsTokenChar("-"[0]); }
    AllTokenCharsAppend("-", b);
    AllTokenCharsAppend(a, "-" + b);
    assert a + ("-" + b) == a + "-" + b;
    FixCaseAppend(a, "-" + b, true);
    FixCaseAppend("-", b, false);
    assert FixCase("-", false) == "-";
  }

  /** A run of lower-case ASCII letters. */
  predicate IsLowerWord(s: string) {
    forall i :: 0 <= i < |s| ==> IsAsciiLower(s[i])
  }

  lemma {:induction false} FixCaseLowerWord(s: string)
    requires IsLowerWord(s)
    ensures AllTokenChars(s) && FixCase(s, false) == s
    decreases |s|
  {
    if |s| > 0 {
      assert IsLowerWord(s[1..]) by {
        forall i | 0 <= i < |s[1..]| ensures IsAsciiLower(s[1..][i]) { assert s[1..][i] == s[i + 1]; }
      }
      FixCaseLowerWord(s[1..]);
      assert s == [s[0]] + s[1..];
    }
  }

  /** A capital letter followed by lower-case letters is a canonical word. */
  lemma CapitalWord(w: string)
    requires |w| > 0 && IsAsciiUpper(w[0]) && IsLowerWord(w[1..])
    ensures AllTokenChars(w) && FixCase(w, true) == w
  {
    FixCaseLowerWord(w[1..]);
    forall i | 0 <= i < |w| ensures IsTokenChar(w[i]) {
      if i > 0 { assert w[i] == w[1..][i - 1]; }
    }
  }

  lemma SetCookieCanonical()
    ensures IsCanonical("Set-Cookie")
  {
    CapitalWord("Set");
    CapitalWord("Cookie");
    HyphenJoinCanonical("Set", "Cookie");
    assert "Set" + "-" + "Cookie" == "Set-Cookie";
  }

  lemma ContentTypeCanonical()
    ensures IsCanonical("Content-Type")
  {
    CapitalWord("Content");
    CapitalWord("Type");
    HyphenJoinCanonical("Content", "Type");
    assert "Content" + "-" + "Type" == "Content-Type";
  }

  lemma ContentEncodingCanonical()
    ensures IsCanonical("Content-Encoding")
  {
    CapitalWord("Content");
    CapitalWord("Encoding");
    HyphenJoinCanonical("Content", "Encoding");
    assert "Content" + "-" + "Encoding" == "Content-Encoding";
  }

  /** The header names the adaptation layer looks up are already canonical. */
  lemma KnownKeysCanonical()
    ensures IsCanonical("Host") && IsCanonical("Cookie")
    ensures IsCanonical("Set-Cookie") && IsCanonical("Content-Type") && IsCanonical("Content-Encoding")
  {
    CapitalWord("Host");
    CapitalWord("Cookie");
    SetCookieCanonical();
    ContentTypeCanonical();
    ContentEncodingCanonical();
  }
}
