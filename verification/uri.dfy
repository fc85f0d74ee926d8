/**
 * encodeURIComponent and decodeURIComponent, as section 19.2.6 of ECMA-262
 * (URI Handling Functions) defines them. A string is read as UTF-16, every
 * code point outside the unreserved set is written as its UTF-8 octets
 * (RFC 3629), and every octet as a "%HH" escape with upper-case hexadecimal
 * digits (section 2.1 of RFC 3986). Letters, digits and - _ . ! ~ * ' ( )
 * are left as they are. A lone surrogate makes the encoder throw URIError,
 * modelled as None.
 */
module Uri {
  import opened Wrappers
  import opened JsStrings

  type Byte = x: int | 0 <= x < 0x100

  /** A Unicode scalar value: a code point that is not a surrogate. */
  type ScalarValue = x: int | 0 <= x < 0xD800 || 0xE000 <= x < 0x11_0000

  const Percent: CodeUnit := 0x25

  /** The characters encodeURIComponent leaves unescaped: A-Z, a-z, 0-9 and
      - _ . ! ~ * ' ( ). */
  predicate IsUnreserved(u: CodeUnit) {
    || 0x41 <= u <= 0x5A || 0x61 <= u <= 0x7A || 0x30 <= u <= 0x39
    || u == 0x2D || u == 0x5F || u == 0x2E || u == 0x21 || u == 0x7E
    || u == 0x2A || u == 0x27 || u == 0x28 || u == 0x29
  }

  predicate IsUpperHexDigit(u: CodeUnit) {
    0x30 <= u <= 0x39 || 0x41 <= u <= 0x46
  }

  /** The upper-case hexadecimal digit for `d`. */
  function HexDigit(d: int): (u: CodeUnit)
    requires 0 <= d < 16
    ensures IsUpperHexDigit(u)
  {
    if d < 10 then 0x30 + d else 0x41 + (d - 10)
  }

  /** The value of a hexadecimal digit of either case. */
  function HexValue(u: CodeUnit): (r: Option<int>)
    ensures r.Some? ==> 0 <= r.value < 16
  {
    if 0x30 <= u <= 0x39 then Some(u - 0x30)
    else if 0x41 <= u <= 0x46 then Some(u - 0x41 + 10)
    else if 0x61 <= u <= 0x66 then Some(u - 0x61 + 10)
    else None
  }

  /** The string consists only of unreserved characters and "%HH" triples
      with upper-case hexadecimal digits. */
  predicate Escaped(t: JsString)
    decreases |t|
  {
    if t == [] then true
    else if IsUnreserved(t[0]) then Escaped(t[1..])
    else |t| >= 3 && t[0] == Percent && IsUpperHexDigit(t[1]) && IsUpperHexDigit(t[2])
         && Escaped(t[3..])
  }

  function EscapeOctet(b: Byte): JsString {
    [Percent, HexDigit(b / 16), HexDigit(b % 16)]
  }

  function EscapeOctets(bs: seq<Byte>): (t: JsString)
    ensures |t| == 3 * |bs|
  {
    if bs == [] then [] else EscapeOctet(bs[0]) + EscapeOctets(bs[1..])
  }

  /** The UTF-8 encoding of a scalar value (section 3 of RFC 3629). */
  function Utf8(cp: ScalarValue): (bs: seq<Byte>)
    ensures 1 <= |bs| <= 4
  {
    var q1, r1 := cp / 0x40, cp % 0x40;
    var q2, r2 := q1 / 0x40, q1 % 0x40;
    var q3, r3 := q2 / 0x40, q2 % 0x40;
    if cp < 0x80 then [cp]
    else if cp < 0x800 then [0xC0 + q1, 0x80 + r1]
    else if cp < 0x1_0000 then [0xE0 + q2, 0x80 + r2, 0x80 + r1]
    else [0xF0 + q3, 0x80 + r3, 0x80 + r2, 0x80 + r1]
  }

  predicate IsContinuation(b: Byte) { 0x80 <= b < 0xC0 }

  /** The length of the UTF-8 sequence that `b` starts, 0 if `b` cannot start
      one (a continuation octet, or more than four leading 1 bits). */
  function SequenceLength(b: Byte): nat {
    if b < 0x80 then 1
    else if b < 0xC0 then 0
    else if b < 0xE0 then 2
    else if b < 0xF0 then 3
    else if b < 0xF8 then 4
    else 0
  }

  /** The scalar value whose UTF-8 encoding `bs` is; None for anything that is
      not exactly one well-formed sequence (a bad continuation octet, an
      overlong form, a surrogate, a value above U+10FFFF). */
  function Utf8Decode(bs: seq<Byte>): Option<ScalarValue> {
    if |bs| == 1 && bs[0] < 0x80 then Some(bs[0])
    else if |bs| == 2 && 0xC0 <= bs[0] < 0xE0 && IsContinuation(bs[1]) then
      var cp := (bs[0] as int - 0xC0) * 0x40 + (bs[1] as int - 0x80);
      if 0x80 <= cp then Some(cp) else None
    else if |bs| == 3 && 0xE0 <= bs[0] < 0xF0 && IsContinuation(bs[1]) && IsContinuation(bs[2]) then
      var cp := (bs[0] as int - 0xE0) * 0x1000 + (bs[1] as int - 0x80) * 0x40 + (bs[2] as int - 0x80);
      if 0x800 <= cp && !(0xD800 <= cp < 0xE000) then Some(cp) else None
    else if |bs| == 4 && 0xF0 <= bs[0] < 0xF8 && IsContinuation(bs[1]) && IsContinuation(bs[2])
            && IsContinuation(bs[3]) then
      var cp := (bs[0] as int - 0xF0) * 0x4_0000 + (bs[1] as int - 0x80) * 0x1000 + (bs[2] as int - 0x80) * 0x40 + (bs[3] as int - 0x80);
      if 0x1_0000 <= cp < 0x11_0000 then Some(cp) else None
    else None
  }

  /** The scalar value a surrogate pair stands for. */
  function PairValue(hi: CodeUnit, lo: CodeUnit): ScalarValue
    requires IsHighSurrogate(hi) && IsLowSurrogate(lo)
  {
    0x1_0000 + (hi - 0xD800) * 0x400 + (lo - 0xDC00)
  }

  /** UTF16EncodeCodePoint: one code unit, or a surrogate pair above U+FFFF. */
  function Utf16(cp: ScalarValue): JsString {
    if cp < 0x1_0000 then [cp]
    else [0xD800 + (cp - 0x1_0000) / 0x400, 0xDC00 + (cp - 0x1_0000) % 0x400]
  }

  function Prepend(p: JsString, r: Option<JsString>): Option<JsString> {
    match r
    case None => None
    case Some(t) => Some(p + t)
  }

  /** encodeURIComponent; None where it throws URIError. */
  function EncodeURIComponent(s: JsString): (r: Option<JsString>)
    ensures r.Some? ==> |s| <= |r.value| <= 9 * |s|
    decreases |s|
  {
    if s == [] then Some([])
    else if IsUnreserved(s[0]) then Prepend([s[0]], EncodeURIComponent(s[1..]))
    else if IsLowSurrogate(s[0]) then None
    else if IsHighSurrogate(s[0]) then
      if |s| < 2 || !IsLowSurrogate(s[1]) then None
      else Prepend(EscapeOctets(Utf8(PairValue(s[0], s[1]))), EncodeURIComponent(s[2..]))
    else Prepend(EscapeOctets(Utf8(s[0])), EncodeURIComponent(s[1..]))
  }

  /** The octet of a "%HH" escape at index `i`. */
  function ReadOctet(t: JsString, i: nat): Option<Byte> {
    if i + 3 <= |t| && t[i] == Percent then
      match (HexValue(t[i + 1]), HexValue(t[i + 2]))
      case (Some(h), Some(l)) => Some(16 * h + l)
      case _ => None
    else None
  }

  /** The octets of `n` consecutive escapes at the start of `t`. */
  function ReadOctets(t: JsString, n: nat): (r: Option<seq<Byte>>)
    ensures r.Some? ==> |r.value| == n && 3 * n <= |t|
    decreases n
  {
    if n == 0 then Some([])
    else match ReadOctet(t, 0)
      case None => None
      case Some(b) =>
        match ReadOctets(t[3..], n - 1)
        case None => None
        case Some(rest) => Some([b] + rest)
  }

  /** The code units an escape sequence at the start of `t` decodes to, with
      the number of code units of `t` it spans. */
  function DecodeEscape(t: JsString): (r: Option<(JsString, nat)>)
    ensures r.Some? ==> 3 <= r.value.1 <= |t| && 1 <= |r.value.0| <= 2
  {
    match ReadOctet(t, 0)
    case None => None
    case Some(b) =>
      var n := SequenceLength(b);
      if n == 0 then None
      else match ReadOctets(t, n)
        case None => None
        case Some(bs) =>
          match Utf8Decode(bs)
          case None => None
          case Some(cp) => Some((Utf16(cp), 3 * n))
  }

  /** decodeURIComponent; None where it throws URIError. */
  function DecodeURIComponent(t: JsString): (r: Option<JsString>)
    ensures r.Some? ==> |r.value| <= |t|
    decreases |t|
  {
    if t == [] then Some([])
    else if t[0] != Percent then Prepend([t[0]], DecodeURIComponent(t[1..]))
    else match DecodeEscape(t)
      case None => None
      case Some((units, k)) => Prepend(units, DecodeURIComponent(t[k..]))
  }

  // Lemmas: encodeURIComponent is defined exactly on well-formed strings, it
  // produces only unreserved characters and escapes, and decodeURIComponent
  // undoes it.

  lemma HexDigitValue(d: int)
    requires 0 <= d < 16
    ensures HexValue(HexDigit(d)) == Some(d)
  {
  }

  lemma ReadFirstOctet(b: Byte, rest: JsString)
    ensures ReadOctet(EscapeOctet(b) + rest, 0) == Some(b)
  {
    HexDigitValue(b / 16);
    HexDigitValue(b % 16);
  }

  lemma {:induction false} ReadEscapedOctets(bs: seq<Byte>, rest: JsString)
    ensures ReadOctets(EscapeOctets(bs) + rest, |bs|) == Some(bs)
    decreases |bs|
  {
    if bs != [] {
      var t := EscapeOctets(bs) + rest;
      assert t == EscapeOctet(bs[0]) + (EscapeOctets(bs[1..]) + rest);
      ReadFirstOctet(bs[0], EscapeOctets(bs[1..]) + rest);
      assert t[3..] == EscapeOctets(bs[1..]) + rest;
      ReadEscapedOctets(bs[1..], rest);
      assert [bs[0]] + bs[1..] == bs;
    }
  }

  /** UTF-8 decoding inverts UTF-8 encoding, and the first octet gives the
      total length of the sequence. */
  lemma Utf8RoundTrip(cp: ScalarValue)
    ensures Utf8Decode(Utf8(cp)) == Some(cp)
    ensures SequenceLength(Utf8(cp)[0]) == |Utf8(cp)|
  {
  }

  lemma Utf16OfPair(hi: CodeUnit, lo: CodeUnit)
    requires IsHighSurrogate(hi) && IsLowSurrogate(lo)
    ensures Utf16(PairValue(hi, lo)) == [hi, lo]
  {
  }

  /** The escapes of one scalar value decode to that value's code units. */
  lemma DecodeEscapeOf(cp: ScalarValue, rest: JsString)
    ensures DecodeEscape(EscapeOctets(Utf8(cp)) + rest) == Some((Utf16(cp), |EscapeOctets(Utf8(cp))|))
  {
    var bs := Utf8(cp);
    var t := EscapeOctets(bs) + rest;
    ReadEscapedOctets(bs, rest);
    assert t == EscapeOctet(bs[0]) + (EscapeOctets(bs[1..]) + rest);
    ReadFirstOctet(bs[0], EscapeOctets(bs[1..]) + rest);
    Utf8RoundTrip(cp);
  }

  lemma WellFormedStep(s: JsString)
    requires s != [] && !IsSurrogate(s[0])
    ensures WellFormed(s) <==> WellFormed(s[1..])
  {
    assert s == [s[0]] + s[1..];
    WellFormedConcat([s[0]], s[1..]);
  }

  lemma WellFormedPairStep(s: JsString)
    requires |s| >= 2 && IsHighSurrogate(s[0]) && IsLowSurrogate(s[1])
    ensures WellFormed(s) <==> WellFormed(s[2..])
  {
    assert s == s[..2] + s[2..];
    WellFormedConcat(s[..2], s[2..]);
  }

  /** encodeURIComponent throws URIError exactly when the string holds a lone
      surrogate. */
  lemma {:induction false} EncodeDefinedIff(s: JsString)
    ensures EncodeURIComponent(s).Some? <==> WellFormed(s)
    decreases |s|
  {
    if s == [] {
    } else if IsUnreserved(s[0]) {
      WellFormedStep(s);
      EncodeDefinedIff(s[1..]);
    } else if IsLowSurrogate(s[0]) {
      assert !WellFormed(s);
    } else if IsHighSurrogate(s[0]) {
      if |s| < 2 || !IsLowSurrogate(s[1]) {
        assert !WellFormed(s);
      } else {
        WellFormedPairStep(s);
        EncodeDefinedIff(s[2..]);
      }
    } else {
      WellFormedStep(s);
      EncodeDefinedIff(s[1..]);
    }
  }

  lemma {:induction false} EscapedOctets(bs: seq<Byte>, t: JsString)
    requires Escaped(t)
    ensures Escaped(EscapeOctets(bs) + t)
    decreases |bs|
  {
    if bs != [] {
      var u := EscapeOctets(bs) + t;
      assert u == EscapeOctet(bs[0]) + (EscapeOctets(bs[1..]) + t);
      assert u[0] == Percent && !IsUnreserved(u[0]);
      assert IsUpperHexDigit(u[1]) && IsUpperHexDigit(u[2]);
      assert u[3..] == EscapeOctets(bs[1..]) + t;
      EscapedOctets(bs[1..], t);
    } else {
      assert EscapeOctets(bs) + t == t;
    }
  }

  /** What encodeURIComponent produces consists only of unreserved characters
      and "%HH" escapes. */
  lemma {:induction false} EncodeEscaped(s: JsString)
    ensures EncodeURIComponent(s).Some? ==> Escaped(EncodeURIComponent(s).value)
    decreases |s|
  {
    if s == [] {
    } else if IsUnreserved(s[0]) {
      EncodeEscaped(s[1..]);
      if EncodeURIComponent(s[1..]).Some? {
        var r := EncodeURIComponent(s[1..]).value;
        assert ([s[0]] + r)[1..] == r;
      }
    } else if IsLowSurrogate(s[0]) {
    } else if IsHighSurrogate(s[0]) {
      if |s| >= 2 && IsLowSurrogate(s[1]) {
        EncodeEscaped(s[2..]);
        if EncodeURIComponent(s[2..]).Some? {
          EscapedOctets(Utf8(PairValue(s[0], s[1])), EncodeURIComponent(s[2..]).value);
        }
      }
    } else {
      EncodeEscaped(s[1..]);
      if EncodeURIComponent(s[1..]).Some? {
        EscapedOctets(Utf8(s[0]), EncodeURIComponent(s[1..]).value);
      }
    }
  }

  /** The octet a "%HH" triple at the start of `t` stands for. */
  function EscapedOctet(t: JsString): int
    requires |t| >= 3 && IsUpperHexDigit(t[1]) && IsUpperHexDigit(t[2])
  {
    HexValue(t[1]).value * 16 + HexValue(t[2]).value
  }

  /** An escaped string in which no escape stands for an unreserved
      character: every unreserved character appears as itself. */
  predicate Minimal(t: JsString)
    decreases |t|
  {
    if t == [] then true
    else if IsUnreserved(t[0]) then Minimal(t[1..])
    else |t| >= 3 && t[0] == Percent && IsUpperHexDigit(t[1]) && IsUpperHexDigit(t[2])
         && (EscapedOctet(t) >= 0x80 || !IsUnreserved(EscapedOctet(t)))
         && Minimal(t[3..])
  }

  lemma {:induction false} MinimalOctets(bs: seq<Byte>, t: JsString)
    requires Minimal(t)
    requires forall k :: 0 <= k < |bs| ==> bs[k] >= 0x80 || !IsUnreserved(bs[k])
    ensures Minimal(EscapeOctets(bs) + t)
    decreases |bs|
  {
    if bs != [] {
      var u := EscapeOctets(bs) + t;
      assert u == EscapeOctet(bs[0]) + (EscapeOctets(bs[1..]) + t);
      HexDigitValue(bs[0] / 16);
      HexDigitValue(bs[0] % 16);
      assert EscapedOctet(u) == bs[0];
      assert u[3..] == EscapeOctets(bs[1..]) + t;
      MinimalOctets(bs[1..], t);
    } else {
      assert EscapeOctets(bs) + t == t;
    }
  }

  /** encodeURIComponent leaves every unreserved character as it is and
      escapes only the others: no escape it writes stands for an unreserved
      character. */
  lemma {:induction false} EncodeMinimal(s: JsString)
    ensures EncodeURIComponent(s).Some? ==> Minimal(EncodeURIComponent(s).value)
    decreases |s|
  {
    if s == [] {
    } else if IsUnreserved(s[0]) {
      EncodeMinimal(s[1..]);
      if EncodeURIComponent(s[1..]).Some? {
        var r := EncodeURIComponent(s[1..]).value;
        assert ([s[0]] + r)[1..] == r;
      }
    } else if IsLowSurrogate(s[0]) {
    } else if IsHighSurrogate(s[0]) {
      if |s| >= 2 && IsLowSurrogate(s[1]) {
        EncodeMinimal(s[2..]);
        if EncodeURIComponent(s[2..]).Some? {
          MinimalOctets(Utf8(PairValue(s[0], s[1])), EncodeURIComponent(s[2..]).value);
        }
      }
    } else {
      EncodeMinimal(s[1..]);
      if EncodeURIComponent(s[1..]).Some? {
        MinimalOctets(Utf8(s[0]), EncodeURIComponent(s[1..]).value);
      }
    }
  }

  /** Decoding the escapes of one scalar value and then the rest of the text
      decodes that value and then the rest. */
  lemma DecodeAfterEscape(cp: ScalarValue, r: JsString)
    ensures DecodeURIComponent(EscapeOctets(Utf8(cp)) + r)
         == Prepend(Utf16(cp), DecodeURIComponent(r))
  {
    var e := EscapeOctets(Utf8(cp));
    var t := e + r;
    DecodeEscapeOf(cp, r);
    assert t[0] == Percent;
    assert t[|e|..] == r;
  }

  /** decodeURIComponent undoes encodeURIComponent on every well-formed
      string. */
  lemma {:induction false} DecodeEncode(s: JsString)
    requires WellFormed(s)
    ensures EncodeURIComponent(s).Some?
    ensures DecodeURIComponent(EncodeURIComponent(s).value) == Some(s)
    decreases |s|
  {
    EncodeDefinedIff(s);
    if s == [] {
    } else if IsUnreserved(s[0]) {
      WellFormedStep(s);
      DecodeEncode(s[1..]);
      var r := EncodeURIComponent(s[1..]).value;
      var t := [s[0]] + r;
      assert t[1..] == r;
      assert s == [s[0]] + s[1..];
    } else if IsHighSurrogate(s[0]) {
      WellFormedPairStep(s);
      DecodeEncode(s[2..]);
      var cp := PairValue(s[0], s[1]);
      DecodeAfterEscape(cp, EncodeURIComponent(s[2..]).value);
      Utf16OfPair(s[0], s[1]);
      assert s == [s[0], s[1]] + s[2..];
    } else {
      WellFormedStep(s);
      DecodeEncode(s[1..]);
      DecodeAfterEscape(s[0], EncodeURIComponent(s[1..]).value);
      assert s == [s[0]] + s[1..];
    }
  }
}
