/**
 * The binary/text decision a buffered response makes for each header:
 * isBinary and isTextMime, with the two package-level settings they read
 * (TextMimeTypes and DefaultContentType) passed in as a Config.
 */
module Classify {
  import opened GoStrings
  import opened Results
  import opened Mime

  /** The package-level variables TextMimeTypes and DefaultContentType. */
  datatype Config = Config(textMimeTypes: seq<string>, defaultContentType: string)

  /** Their initial values. */
  function Defaults(): Config {
    Config(["image/svg+xml", "application/json", "application/xml"], "text/plain; charset=utf-8")
  }

  /** The scan over TextMimeTypes, stopping at the first match. */
  method Listed(mt: string, textMimeTypes: seq<string>) returns (isText: bool)
    ensures isText <==> mt in textMimeTypes
  {
    isText := false;
    var i := 0;
    while i < |textMimeTypes|
      invariant 0 <= i <= |textMimeTypes|
      invariant !isText && mt !in textMimeTypes[..i]
    {
      if mt == textMimeTypes[i] {
        isText := true;
        break;
      }
      assert textMimeTypes[..i + 1] == textMimeTypes[..i] + [textMimeTypes[i]];
      i := i + 1;
    }
    assert !isText ==> textMimeTypes[..i] == textMimeTypes;
  }

  /**
   * isTextMime: a value that does not parse is not text; a parsed media
   * type is text when it starts with "text/" or is one of TextMimeTypes.
   */
  function IsTextMime(cfg: Config, kind: string): bool {
    match ParseMediaType(kind)
    case None => false
    case Some(mt) => HasPrefix(mt, "text/") || mt in cfg.textMimeTypes
  }

  /**
   * isBinary. Only Content-Type and Content-Encoding can make a response
   * binary: a gzip encoding does, and so does a Content-Type that does not
   * parse or parses to a type that is neither a text type nor listed.
   */
  function IsBinary(cfg: Config, key: string, value: string): (r: bool)
    ensures key != "Content-Type" && key != "Content-Encoding" ==> !r
    ensures key == "Content-Encoding" ==> (r <==> value == "gzip")
    ensures key == "Content-Type" ==>
      (r <==> (ParseMediaType(value).None? ||
               (!HasPrefix(ParseMediaType(value).value, "text/") &&
                ParseMediaType(value).value !in cfg.textMimeTypes)))
  {
    (key == "Content-Type" && !IsTextMime(cfg, value)) ||
    (key == "Content-Encoding" && value == "gzip")
  }

  /** A lower-case ASCII letter, digit, '+', '-' or '.': a token character that needs no folding. */
  predicate IsPlainTokenChar(c: char) {
    IsAsciiLower(c) || IsDigit(c) || c == '+' || c == '-' || c == '.'
  }

  lemma PlainToken(s: string)
    requires |s| > 0 && forall i :: 0 <= i < |s| ==> IsPlainTokenChar(s[i])
    ensures IsToken(s) && LowerCased(s)
  {
    forall i | 0 <= i < |s| ensures IsTokenChar(s[i]) && !IsAsciiUpper(s[i]) {
      assert IsPlainTokenChar(s[i]);
    }
  }

  /** Parameters after the media type change nothing: only the type decides. */
  lemma TextMimeIgnoresParameter(cfg: Config, typ: string, sub: string, name: string, val: string)
    requires IsToken(typ) && IsToken(sub) && LowerCased(typ) && LowerCased(sub)
    requires IsToken(name) && LowerCased(name) && IsToken(val)
    ensures IsTextMime(cfg, typ + "/" + sub + Parameter(name, val)) == IsTextMime(cfg, typ + "/" + sub)
  {
    ParseMediaTypeWithParameter(typ, sub, name, val);
    ParseBareMediaType(typ, sub);
  }

  /** Every type under text/ is text, whatever TextMimeTypes holds. */
  lemma TextTypesAreText(cfg: Config, sub: string)
    requires IsToken(sub) && LowerCased(sub)
    ensures IsTextMime(cfg, "text/" + sub)
  {
    PlainToken("text");
    ParseBareMediaType("text", sub);
    assert "text" + "/" == "text/";
    PrefixOfAppend("text/", sub);
  }

  /** A listed type written in lower case is text. */
  lemma ListedTypesAreText(cfg: Config, typ: string, sub: string)
    requires IsToken(typ) && IsToken(sub) && LowerCased(typ) && LowerCased(sub)
    requires typ + "/" + sub in cfg.textMimeTypes
    ensures IsTextMime(cfg, typ + "/" + sub)
  {
    ParseBareMediaType(typ, sub);
  }

  /** A type under text/ stays text whatever parameter follows it. */
  lemma TextWithParameterIsText(cfg: Config, sub: string, name: string, val: string)
    requires IsToken(sub) && LowerCased(sub)
    requires IsToken(name) && LowerCased(name) && IsToken(val)
    ensures IsTextMime(cfg, "text/" + sub + Parameter(name, val))
  {
    PlainToken("text");
    TextMimeIgnoresParameter(cfg, "text", sub, name, val);
    TextTypesAreText(cfg, sub);
    assert "text" + "/" == "text/";
  }

  lemma DefaultContentTypePieces()
    ensures Defaults().defaultContentType == "text/" + "plain" + Parameter("charset", "utf-8")
  {
  }

  /** The default Content-Type a response gets is text, so it alone never forces base64. */
  lemma DefaultContentTypeIsText()
    ensures IsTextMime(Defaults(), Defaults().defaultContentType)
    ensures !IsBinary(Defaults(), "Content-Type", Defaults().defaultContentType)
  {
    PlainToken("plain");
    PlainToken("charset");
    PlainToken("utf-8");
    DefaultContentTypePieces();
    TextWithParameterIsText(Defaults(), "plain", "charset", "utf-8");
  }

  /** application/json is text through the default list. */
  lemma JsonIsText()
    ensures IsTextMime(Defaults(), "application/json")
  {
    PlainToken("application");
    PlainToken("json");
    assert "application" + "/" + "json" == "application/json";
    ListedTypesAreText(Defaults(), "application", "json");
  }

  lemma NotUnderText(mt: string)
    requires |mt| > 0 && mt[0] != 't'
    ensures !HasPrefix(mt, "text/")
  {
    if |mt| >= 5 {
      assert mt[..5][0] == mt[0];
    }
  }

  /** A parsable type that is neither under text/ nor listed is binary. */
  lemma UnlistedTypeIsBinary(cfg: Config, typ: string, sub: string)
    requires IsToken(typ) && IsToken(sub) && LowerCased(typ) && LowerCased(sub)
    requires typ[0] != 't' && typ + "/" + sub !in cfg.textMimeTypes
    ensures IsBinary(cfg, "Content-Type", typ + "/" + sub)
  {
    ParseBareMediaType(typ, sub);
    NotUnderText(typ + "/" + sub);
  }

  /** image/png is neither under text/ nor listed, so a PNG response is sent as base64. */
  lemma PngIsBinary()
    ensures IsBinary(Defaults(), "Content-Type", "image/png")
  {
    PlainToken("image");
    PlainToken("png");
    var list := Defaults().textMimeTypes;
    assert "image/png" !in list by {
      assert forall i :: 0 <= i < |list| ==> |list[i]| != 9;
    }
    assert "image" + "/" + "png" == "image/png";
    UnlistedTypeIsBinary(Defaults(), "image", "png");
  }
}
