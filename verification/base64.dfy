/**
 * Go's base64.StdEncoding: the standard alphabet with `=` padding of
 * section 4 of RFC 4648. Encoding is EncodeToString; decoding is Decode as
 * the translators call it, which skips CR and LF anywhere in the input,
 * insists on complete padded quanta, and ignores the unused low bits of
 * the last sextet (the encoding is not in strict mode).
 */
module Base64 {
  import opened GoStrings
  import opened Results

  const Pad: byte := '=' as int
  const CR: byte := '\r' as int
  const LF: byte := '\n' as int

  /** The character of the alphabet that stands for the six bits `i`. */
  function EncodeSextet(i: int): (c: byte)
    requires 0 <= i < 64
    ensures DecodeSextet(c) == i
  {
    if i < 26 then 'A' as int + i
    else if i < 52 then 'a' as int + (i - 26)
    else if i < 62 then '0' as int + (i - 52)
    else if i == 62 then '+' as int
    else '/' as int
  }

  /** The six bits a character stands for, or -1 for a character outside the alphabet. */
  function DecodeSextet(c: byte): (i: int)
    ensures -1 <= i < 64
  {
    if 'A' as int <= c <= 'Z' as int then c - 'A' as int
    else if 'a' as int <= c <= 'z' as int then c - 'a' as int + 26
    else if '0' as int <= c <= '9' as int then c - '0' as int + 52
    else if c == '+' as int then 62
    else if c == '/' as int then 63
    else -1
  }

  predicate InAlphabet(c: byte) {
    DecodeSextet(c) >= 0
  }

  /** Encoding of a group of one to three bytes: one quantum of four characters. */
  function EncodeGroup(g: seq<byte>): (q: seq<byte>)
    requires 1 <= |g| <= 3
    ensures |q| == 4
    ensures forall i :: 0 <= i < 4 ==> InAlphabet(q[i]) || q[i] == Pad
  {
    if |g| == 1 then
      [EncodeSextet(g[0] / 4), EncodeSextet((g[0] % 4) * 16), Pad, Pad]
    else if |g| == 2 then
      [EncodeSextet(g[0] / 4), EncodeSextet((g[0] % 4) * 16 + g[1] / 16),
       EncodeSextet((g[1] % 16) * 4), Pad]
    else
      [EncodeSextet(g[0] / 4), EncodeSextet((g[0] % 4) * 16 + g[1] / 16),
       EncodeSextet((g[1] % 16) * 4 + g[2] / 64), EncodeSextet(g[2] % 64)]
  }

  /** base64.StdEncoding.EncodeToString. */
  function Encode(b: seq<byte>): (s: seq<byte>)
    ensures |s| == (|b| + 2) / 3 * 4
    ensures forall i :: 0 <= i < |s| ==> InAlphabet(s[i]) || s[i] == Pad
    decreases |b|
  {
    if |b| == 0 then []
    else if |b| <= 3 then EncodeGroup(b)
    else
      var head, tail := EncodeGroup(b[..3]), Encode(b[3..]);
      assert (|b| + 2) / 3 * 4 == 4 + (|b| - 1) / 3 * 4;
      assert forall i :: 0 <= i < |head + tail| ==> (head + tail)[i] == if i < 4 then head[i] else tail[i - 4];
      head + tail
  }

  /** The input with every CR and LF removed: the characters Decode skips. */
  function StripNewlines(s: seq<byte>): (t: seq<byte>)
    ensures forall i :: 0 <= i < |t| ==> t[i] != CR && t[i] != LF
    ensures (forall i :: 0 <= i < |s| ==> s[i] != CR && s[i] != LF) ==> t == s
    decreases |s|
  {
    if |s| == 0 then []
    else if s[0] == CR || s[0] == LF then StripNewlines(s[1..])
    else
      assert s == [s[0]] + s[1..];
      [s[0]] + StripNewlines(s[1..])
  }

  /** The bytes of a quantum of four alphabet characters. */
  function DecodeFull(q: seq<byte>): seq<byte>
    requires |q| == 4 && forall i :: 0 <= i < 4 ==> InAlphabet(q[i])
  {
    var a, b, c, d := DecodeSextet(q[0]), DecodeSextet(q[1]), DecodeSextet(q[2]), DecodeSextet(q[3]);
    assert InAlphabet(q[0]) && InAlphabet(q[1]) && InAlphabet(q[2]) && InAlphabet(q[3]);
    var x: byte, y: byte, z: byte := a * 4 + b / 16, (b % 16) * 16 + c / 4, (c % 4) * 64 + d;
    [x, y, z]
  }

  /**
   * One quantum. A quantum that is not the last may not hold padding; the
   * last may end in `=` (two bytes) or `==` (one byte).
   */
  function DecodeQuantum(q: seq<byte>, last: bool): (r: Option<seq<byte>>)
    requires |q| == 4
  {
    if !InAlphabet(q[0]) || !InAlphabet(q[1]) then None
    else if InAlphabet(q[2]) && InAlphabet(q[3]) then Some(DecodeFull(q))
    else if !last then None
    else
      var a, b := DecodeSextet(q[0]), DecodeSextet(q[1]);
      if InAlphabet(q[2]) && q[3] == Pad then
        var c := DecodeSextet(q[2]);
        Some([a * 4 + b / 16, (b % 16) * 16 + c / 4])
      else if q[2] == Pad && q[3] == Pad then Some([a * 4 + b / 16])
      else None
  }

  /** Decoding of input already free of newlines, quantum by quantum. */
  function DecodeQuanta(t: seq<byte>): (r: Option<seq<byte>>)
    decreases |t|
  {
    if |t| == 0 then Some([])
    else if |t| < 4 then None
    else if |t| == 4 then DecodeQuantum(t, true)
    else
      match DecodeQuantum(t[..4], false)
      case None => None
      case Some(head) =>
        match DecodeQuanta(t[4..])
        case None => None
        case Some(tail) => Some(head + tail)
  }

  /** base64.StdEncoding.Decode, None standing for its CorruptInputError. */
  function Decode(s: seq<byte>): Option<seq<byte>> {
    DecodeQuanta(StripNewlines(s))
  }

  /** The shape of a valid last quantum: `xxxx`, `xxx=` or `xx==`. */
  predicate LastQuantumShape(q: seq<byte>)
    requires |q| == 4
  {
    && InAlphabet(q[0]) && InAlphabet(q[1])
    && ((InAlphabet(q[2]) && (InAlphabet(q[3]) || q[3] == Pad)) || (q[2] == Pad && q[3] == Pad))
  }

  /**
   * The declarative grammar of input Decode accepts once newlines are gone:
   * whole quanta of alphabet characters, padding only in the last quantum.
   */
  predicate WellFormed(t: seq<byte>) {
    && |t| % 4 == 0
    && (forall i :: 0 <= i < |t| - 4 ==> InAlphabet(t[i]))
    && (|t| >= 4 ==> LastQuantumShape(t[|t| - 4..]))
  }

  /** Number of `=` characters closing a well-formed input. */
  function PadCount(t: seq<byte>): nat
    requires WellFormed(t)
  {
    if |t| == 0 then 0
    else if t[|t| - 2] == Pad then 2
    else if t[|t| - 1] == Pad then 1
    else 0
  }

  predicate AllInAlphabet(q: seq<byte>) {
    forall i :: 0 <= i < |q| ==> InAlphabet(q[i])
  }

  /** A quantum that is not the last decodes exactly when it is four alphabet characters. */
  lemma InnerQuantum(q: seq<byte>)
    requires |q| == 4
    ensures DecodeQuantum(q, false).Some? <==> AllInAlphabet(q)
    ensures DecodeQuantum(q, false).Some? ==> |DecodeQuantum(q, false).value| == 3
  {
    if AllInAlphabet(q) {
      assert InAlphabet(q[0]) && InAlphabet(q[1]) && InAlphabet(q[2]) && InAlphabet(q[3]);
    }
  }

  /** The last quantum decodes exactly when it has a valid shape. */
  lemma LastQuantum(q: seq<byte>)
    requires |q| == 4
    ensures DecodeQuantum(q, true).Some? <==> WellFormed(q)
    ensures WellFormed(q) ==> |DecodeQuantum(q, true).value| == 3 - PadCount(q)
  {
    assert q[|q| - 4..] == q;
  }

  /** A longer input is well formed exactly when its first quantum is plain and the rest is well formed. */
  lemma WellFormedSplit(t: seq<byte>)
    requires |t| > 4
    ensures WellFormed(t) <==> AllInAlphabet(t[..4]) && WellFormed(t[4..])
    ensures WellFormed(t) ==> PadCount(t) == PadCount(t[4..])
  {
    var q, rest := t[..4], t[4..];
    if |rest| >= 4 { assert rest[|rest| - 4..] == t[|t| - 4..]; }
    if WellFormed(t) {
      forall i | 0 <= i < 4 ensures InAlphabet(q[i]) { assert q[i] == t[i]; }
      forall i | 0 <= i < |rest| - 4 ensures InAlphabet(rest[i]) { assert rest[i] == t[i + 4]; }
    }
    if AllInAlphabet(q) && WellFormed(rest) {
      forall i | 0 <= i < |t| - 4 ensures InAlphabet(t[i]) {
        if i < 4 { assert t[i] == q[i]; } else { assert t[i] == rest[i - 4]; }
      }
    }
  }

  lemma {:induction false} DecodeQuantaIffWellFormed(t: seq<byte>)
    ensures DecodeQuanta(t).Some? <==> WellFormed(t)
    ensures WellFormed(t) ==> |DecodeQuanta(t).value| == |t| / 4 * 3 - PadCount(t)
    decreases |t|
  {
    if |t| == 0 {
    } else if |t| < 4 {
    } else if |t| == 4 {
      LastQuantum(t);
    } else {
      var q, rest := t[..4], t[4..];
      WellFormedSplit(t);
      InnerQuantum(q);
      DecodeQuantaIffWellFormed(rest);
      assert |t| / 4 * 3 == 3 + |rest| / 4 * 3;
    }
  }

  /** Decode succeeds exactly on well-formed input, and says how many bytes it yields. */
  lemma DecodeSucceedsIffWellFormed(s: seq<byte>)
    ensures Decode(s).Some? <==> WellFormed(StripNewlines(s))
    ensures Decode(s).Some? ==>
      |Decode(s).value| == |StripNewlines(s)| / 4 * 3 - PadCount(StripNewlines(s))
  {
    DecodeQuantaIffWellFormed(StripNewlines(s));
  }

  /** The sextets of one byte join back into it. */
  lemma OneByteSextets(x: byte)
    ensures var a, b := x / 4, (x % 4) * 16;
      0 <= a < 64 && 0 <= b < 64 && a * 4 + b / 16 == x
  {
  }

  /** The sextets of two bytes join back into them. */
  lemma TwoByteSextets(x: byte, y: byte)
    ensures var a, b, c := x / 4, (x % 4) * 16 + y / 16, (y % 16) * 4;
      0 <= a < 64 && 0 <= b < 64 && 0 <= c < 64 &&
      a * 4 + b / 16 == x && (b % 16) * 16 + c / 4 == y
  {
    var b := (x % 4) * 16 + y / 16;
    assert b / 16 == x % 4 && b % 16 == y / 16;
  }

  /** The sextets of three bytes join back into them. */
  lemma ThreeByteSextets(x: byte, y: byte, z: byte)
    ensures var a, b, c, d := x / 4, (x % 4) * 16 + y / 16, (y % 16) * 4 + z / 64, z % 64;
      0 <= a < 64 && 0 <= b < 64 && 0 <= c < 64 && 0 <= d < 64 &&
      a * 4 + b / 16 == x && (b % 16) * 16 + c / 4 == y && (c % 4) * 64 + d == z
  {
    var b := (x % 4) * 16 + y / 16;
    var c := (y % 16) * 4 + z / 64;
    assert b / 16 == x % 4 && b % 16 == y / 16;
    assert c / 4 == y % 16 && c % 4 == z / 64;
  }

  lemma DecodeEncodeOne(g: seq<byte>)
    requires |g| == 1
    ensures DecodeQuantum(EncodeGroup(g), true) == Some(g)
  {
    var x := g[0];
    OneByteSextets(x);
    var q := EncodeGroup(g);
    assert DecodeSextet(q[0]) == x / 4 && DecodeSextet(q[1]) == (x % 4) * 16;
    assert [x] == g;
  }

  lemma DecodeEncodeTwo(g: seq<byte>)
    requires |g| == 2
    ensures DecodeQuantum(EncodeGroup(g), true) == Some(g)
  {
    var x, y := g[0], g[1];
    TwoByteSextets(x, y);
    var q := EncodeGroup(g);
    assert DecodeSextet(q[0]) == x / 4 && DecodeSextet(q[1]) == (x % 4) * 16 + y / 16;
    assert DecodeSextet(q[2]) == (y % 16) * 4;
    assert [x, y] == g;
  }

  lemma DecodeFullOf(q: seq<byte>, x: byte, y: byte, z: byte)
    requires |q| == 4
    requires DecodeSextet(q[0]) == x / 4 && DecodeSextet(q[1]) == (x % 4) * 16 + y / 16
    requires DecodeSextet(q[2]) == (y % 16) * 4 + z / 64 && DecodeSextet(q[3]) == z % 64
    ensures DecodeQuantum(q, false) == DecodeQuantum(q, true) == Some([x, y, z])
  {
    ThreeByteSextets(x, y, z);
    assert DecodeFull(q) == [x, y, z];
  }

  lemma DecodeEncodeThree(g: seq<byte>, last: bool)
    requires |g| == 3
    ensures DecodeQuantum(EncodeGroup(g), last) == Some(g)
  {
    var x, y, z := g[0], g[1], g[2];
    ThreeByteSextets(x, y, z);
    var q := EncodeGroup(g);
    assert DecodeSextet(q[0]) == x / 4 && DecodeSextet(q[1]) == (x % 4) * 16 + y / 16;
    assert DecodeSextet(q[2]) == (y % 16) * 4 + z / 64 && DecodeSextet(q[3]) == z % 64;
    DecodeFullOf(q, x, y, z);
    assert [x, y, z] == g;
  }

  lemma DecodeEncodeGroup(g: seq<byte>, last: bool)
    requires 1 <= |g| <= 3
    requires |g| < 3 ==> last
    ensures DecodeQuantum(EncodeGroup(g), last) == Some(g)
  {
    if |g| == 1 {
      DecodeEncodeOne(g);
    } else if |g| == 2 {
      DecodeEncodeTwo(g);
    } else {
      DecodeEncodeThree(g, last);
    }
  }

  lemma {:induction false} DecodeQuantaEncode(b: seq<byte>)
    ensures DecodeQuanta(Encode(b)) == Some(b)
    decreases |b|
  {
    if |b| == 0 {
    } else if |b| <= 3 {
      DecodeEncodeGroup(b, true);
    } else {
      var head, tail := EncodeGroup(b[..3]), Encode(b[3..]);
      DecodeEncodeGroup(b[..3], false);
      DecodeQuantaEncode(b[3..]);
      var t := head + tail;
      assert t[..4] == head && t[4..] == tail;
      assert b[..3] + b[3..] == b;
    }
  }

  /** Decoding what Encode produced gives back the original bytes. */
  lemma DecodeEncode(b: seq<byte>)
    ensures Decode(Encode(b)) == Some(b)
  {
    var s := Encode(b);
    forall i | 0 <= i < |s| ensures s[i] != CR && s[i] != LF {
      assert InAlphabet(s[i]) || s[i] == Pad;
    }
    assert StripNewlines(s) == s;
    DecodeQuantaEncode(b);
  }
}
