/**
 * encodeURIComponent and decodeURIComponent as ECMA-262 defines them in its
 * URI Handling Functions (section 19.2.6 of the 2024 edition): the unescaped
 * set is the ASCII letters, the decimal digits and - _ . ! ~ * ' ( ); every
 * other code point becomes the %HH triplets (upper-case hex) of its UTF-8
 * bytes, which is the percent-encoding of section 2.1 of RFC 3986.
 *
 * A Dafny `char` is a Unicode scalar value, so a string here never holds a
 * lone surrogate and the URIError that encodeURIComponent raises for one
 * cannot arise.
 */
module UriComponent {
  import opened Wrappers

  type Byte = b: int | 0 <= b < 256

  predicate IsAsciiLetter(c: char) {
    'A' <= c <= 'Z' || 'a' <= c <= 'z'
  }

  predicate IsDecimalDigit(c: char) {
    '0' <= c <= '9'
  }

  /** The characters encodeURIComponent copies unchanged. */
  predicate IsUnescaped(c: char) {
    || IsAsciiLetter(c) || IsDecimalDigit(c)
    || c == '-' || c == '_' || c == '.' || c == '!' || c == '~' || c == '*' || c == '\'' || c == '(' || c == ')'
  }

  predicate IsUpperHexDigit(c: char) {
    '0' <= c <= '9' || 'A' <= c <= 'F'
  }

  /** The upper-case hexadecimal digit of n. */
  function HexChar(n: int): (c: char)
    requires 0 <= n < 16
    ensures IsUpperHexDigit(c)
  {
    if n < 10 then ('0' as int + n) as char else ('A' as int + n - 10) as char
  }

  /** The value of a hexadecimal digit of either case, as the decoder reads it. */
  function HexValue(c: char): (r: Option<int>)
    ensures r.Some? ==> 0 <= r.value < 16
    ensures r.Some? <==> IsUpperHexDigit(c) || 'a' <= c <= 'f'
  {
    if '0' <= c <= '9' then Some(c as int - '0' as int)
    else if 'A' <= c <= 'F' then Some(c as int - 'A' as int + 10)
    else if 'a' <= c <= 'f' then Some(c as int - 'a' as int + 10)
    else None
  }

  lemma HexRoundTrip(n: int)
    requires 0 <= n < 16
    ensures HexValue(HexChar(n)) == Some(n)
  {
  }

  /** The UTF-8 encoding of one code point (section 3.9 of the Unicode Standard). */
  function Utf8(c: char): (bytes: seq<Byte>)
    ensures 1 <= |bytes| <= 4
    ensures (|bytes| == 1) == (c as int < 0x80)
  {
    var cp := c as int;
    if cp < 0x80 then [cp]
    else if cp < 0x800 then [0xC0 + cp / 64, 0x80 + cp % 64]
    else if cp < 0x10000 then [0xE0 + cp / 4096, 0x80 + cp / 64 % 64, 0x80 + cp % 64]
    else [0xF0 + cp / 0x40000, 0x80 + cp / 4096 % 64, 0x80 + cp / 64 % 64, 0x80 + cp % 64]
  }

  /** One byte as a percent-encoded triplet. */
  function Escape(b: Byte): (t: string)
    ensures |t| == 3 && t[0] == '%' && IsUpperHexDigit(t[1]) && IsUpperHexDigit(t[2])
  {
    ['%', HexChar(b / 16), HexChar(b % 16)]
  }

  function EscapeBytes(bytes: seq<Byte>): (t: string)
    ensures |t| == 3 * |bytes|
  {
    if bytes == [] then [] else Escape(bytes[0]) + EscapeBytes(bytes[1..])
  }

  function EncodeChar(c: char): string {
    if IsUnescaped(c) then [c] else EscapeBytes(Utf8(c))
  }

  /** encodeURIComponent. */
  function Encode(s: string): string {
    if s == [] then [] else EncodeChar(s[0]) + Encode(s[1..])
  }

  /** The byte of a percent-encoded triplet at the start of s. */
  function DecodeEscape(s: string): (r: Option<Byte>)
    ensures r.Some? ==> |s| >= 3 && s[0] == '%'
  {
    if |s| >= 3 && s[0] == '%' then
      match (HexValue(s[1]), HexValue(s[2]))
      case (Some(hi), Some(lo)) => Some(16 * hi + lo)
      case _ => None
    else None
  }

  /** The six payload bits of a continuation byte (10xxxxxx) escaped at the start of s. */
  function Continuation(s: string): (r: Option<int>)
    ensures r.Some? ==> |s| >= 3 && 0 <= r.value < 64
  {
    match DecodeEscape(s)
    case Some(b) => if 0x80 <= b < 0xC0 then Some(b - 0x80) else None
    case None => None
  }

  /**
   * The code point that the run of escaped UTF-8 bytes at the start of s
   * encodes, and the number of characters that run takes. None where the
   * decoder raises URIError: a malformed triplet, a lead byte 10xxxxxx or
   * 11111xxx, a missing or malformed continuation byte, an overlong form, a
   * surrogate, or a value past U+10FFFF.
   */
  function DecodeOctets(s: string): (r: Option<(char, nat)>)
    ensures r.Some? ==> 3 <= r.value.1 <= |s| && r.value.1 <= 12 && r.value.1 % 3 == 0
  {
    match DecodeEscape(s)
    case None => None
    case Some(b0) =>
      if b0 < 0x80 then Some((b0 as char, 3))
      else if 0xC0 <= b0 < 0xE0 then
        match Continuation(s[3..])
        case None => None
        case Some(b1) =>
          var cp := (b0 - 0xC0) * 64 + b1;
          if cp < 0x80 then None else Some((cp as char, 6))
      else if 0xE0 <= b0 < 0xF0 then
        match Continuation(s[3..])
        case None => None
        case Some(b1) =>
          match Continuation(s[6..])
          case None => None
          case Some(b2) =>
            var cp := (b0 - 0xE0) * 4096 + b1 * 64 + b2;
            if cp < 0x800 || 0xD800 <= cp < 0xE000 then None else Some((cp as char, 9))
      else if 0xF0 <= b0 < 0xF8 then
        match Continuation(s[3..])
        case None => None
        case Some(b1) =>
          match Continuation(s[6..])
          case None => None
          case Some(b2) =>
            match Continuation(s[9..])
            case None => None
            case Some(b3) =>
              var cp := (b0 - 0xF0) * 0x40000 + b1 * 4096 + b2 * 64 + b3;
              if cp < 0x10000 || cp > 0x10FFFF then None else Some((cp as char, 12))
      else None
  }

  function Prepend(c: char, r: Option<string>): Option<string> {
    match r
    case Some(t) => Some([c] + t)
    case None => None
  }

  /** decodeURIComponent; None where it raises URIError. */
  function Decode(s: string): Option<string>
    decreases |s|
  {
    if s == [] then Some([])
    else if s[0] != '%' then Prepend(s[0], Decode(s[1..]))
    else
      match DecodeOctets(s)
      case None => None
      case Some((c, n)) => Prepend(c, Decode(s[n..]))
  }

  // ---------------------------------------------------------------------------
  // What the encoding produces

  /** Unescaped characters and %HH triplets with upper-case hex, nothing else. */
  predicate WellFormed(t: string)
    decreases |t|
  {
    if t == [] then true
    else if IsUnescaped(t[0]) then WellFormed(t[1..])
    else |t| >= 3 && t[0] == '%' && IsUpperHexDigit(t[1]) && IsUpperHexDigit(t[2]) && WellFormed(t[3..])
  }

  lemma {:induction false} WellFormedAppend(a: string, b: string)
    requires WellFormed(a) && WellFormed(b)
    ensures WellFormed(a + b)
    decreases |a|
  {
    if a != [] {
      if IsUnescaped(a[0]) {
        assert (a + b)[1..] == a[1..] + b;
        WellFormedAppend(a[1..], b);
      } else {
        assert (a + b)[3..] == a[3..] + b;
        WellFormedAppend(a[3..], b);
      }
    } else {
      assert a + b == b;
    }
  }

  lemma {:induction false} EscapeBytesWellFormed(bytes: seq<Byte>)
    ensures WellFormed(EscapeBytes(bytes))
  {
    if bytes != [] {
      var e := Escape(bytes[0]);
      assert WellFormed(e) by {
        assert e[3..] == [];
      }
      EscapeBytesWellFormed(bytes[1..]);
      WellFormedAppend(e, EscapeBytes(bytes[1..]));
    }
  }

  lemma {:induction false} EncodeWellFormed(s: string)
    ensures WellFormed(Encode(s))
  {
    if s != [] {
      if IsUnescaped(s[0]) {
        assert WellFormed([s[0]]) by { assert [s[0]][1..] == []; }
      } else {
        EscapeBytesWellFormed(Utf8(s[0]));
      }
      EncodeWellFormed(s[1..]);
      WellFormedAppend(EncodeChar(s[0]), Encode(s[1..]));
    }
  }

  lemma {:induction false} WellFormedChars(t: string)
    requires WellFormed(t)
    ensures forall i :: 0 <= i < |t| ==> IsUnescaped(t[i]) || t[i] == '%'
    decreases |t|
  {
    if t != [] {
      if IsUnescaped(t[0]) {
        WellFormedChars(t[1..]);
        assert forall i :: 1 <= i < |t| ==> t[i] == t[1..][i - 1];
      } else {
        WellFormedChars(t[3..]);
        assert forall i :: 3 <= i < |t| ==> t[i] == t[3..][i - 3];
      }
    }
  }

  /** The encoded text holds only unescaped characters and '%'. */
  lemma EncodeChars(s: string)
    ensures forall i :: 0 <= i < |Encode(s)| ==> IsUnescaped(Encode(s)[i]) || Encode(s)[i] == '%'
  {
    EncodeWellFormed(s);
    WellFormedChars(Encode(s));
  }

  lemma EncodeOmits(s: string, x: char)
    requires !IsUnescaped(x) && x != '%'
    ensures x !in Encode(s)
  {
    var t := Encode(s);
    EncodeChars(s);
    assert forall i :: 0 <= i < |t| ==> t[i] != x;
  }

  /** So none of the characters that would break a query string survives unescaped. */
  lemma EncodeHasNoDelimiters(s: string)
    ensures ' ' !in Encode(s) && '\n' !in Encode(s) && '&' !in Encode(s)
    ensures '#' !in Encode(s) && '?' !in Encode(s) && '=' !in Encode(s)
  {
    EncodeOmits(s, ' ');
    EncodeOmits(s, '\n');
    EncodeOmits(s, '&');
    EncodeOmits(s, '#');
    EncodeOmits(s, '?');
    EncodeOmits(s, '=');
  }

  lemma EncodeOfUnescaped(s: string)
    requires forall i :: 0 <= i < |s| ==> IsUnescaped(s[i])
    ensures Encode(s) == s
  {
    if s != [] {
      EncodeOfUnescaped(s[1..]);
    }
  }

  lemma {:induction false} EncodeAppend(a: string, b: string)
    ensures Encode(a + b) == Encode(a) + Encode(b)
  {
    if a == [] {
      assert a + b == b;
    } else {
      assert (a + b)[0] == a[0];
      assert (a + b)[1..] == a[1..] + b;
      EncodeAppend(a[1..], b);
    }
  }

  lemma EncodeExamples()
    ensures Encode(" ") == "%20"
    ensures Encode("\n") == "%0A"
    ensures Encode("A&B") == "A%26B"
    ensures Encode("é") == "%C3%A9"
  {
    assert Encode("A&B") == EncodeChar('A') + Encode("&B");
    assert Encode("&B") == EncodeChar('&') + Encode("B");
    assert Utf8('é') == [0xC3, 0xA9];
    assert EscapeBytes([0xC3, 0xA9]) == Escape(0xC3) + EscapeBytes([0xA9]);
    assert Encode("é") == EncodeChar('é') + Encode("");
  }

  // ---------------------------------------------------------------------------
  // Decoding undoes encoding

  lemma EscapeDecodes(b: Byte, rest: string)
    ensures DecodeEscape(Escape(b) + rest) == Some(b)
  {
    var t := Escape(b) + rest;
    assert t[0] == '%' && t[1] == HexChar(b / 16) && t[2] == HexChar(b % 16);
    HexRoundTrip(b / 16);
    HexRoundTrip(b % 16);
  }

  lemma ContinuationDecodes(b: Byte, rest: string)
    requires 0x80 <= b < 0xC0
    ensures Continuation(Escape(b) + rest) == Some(b - 0x80)
  {
    EscapeDecodes(b, rest);
  }

  /** The escaped bytes following the first one. */
  lemma EscapeTail(bytes: seq<Byte>, rest: string)
    requires bytes != []
    ensures (EscapeBytes(bytes) + rest)[3..] == EscapeBytes(bytes[1..]) + rest
    ensures EscapeBytes(bytes) + rest == Escape(bytes[0]) + (EscapeBytes(bytes[1..]) + rest)
  {
  }

  lemma Utf8Decodes1(c: char, rest: string)
    requires c as int < 0x80
    ensures DecodeOctets(EscapeBytes(Utf8(c)) + rest) == Some((c, 3))
  {
    var bs := Utf8(c);
    EscapeTail(bs, rest);
    EscapeDecodes(bs[0], EscapeBytes(bs[1..]) + rest);
  }

  lemma Utf8Decodes2(c: char, rest: string)
    requires 0x80 <= c as int < 0x800
    ensures DecodeOctets(EscapeBytes(Utf8(c)) + rest) == Some((c, 6))
  {
    var bs := Utf8(c);
    var cp := c as int;
    var t := EscapeBytes(bs) + rest;
    var t1 := EscapeBytes(bs[1..]) + rest;
    EscapeTail(bs, rest);
    EscapeTail(bs[1..], rest);
    EscapeDecodes(bs[0], t1);
    ContinuationDecodes(bs[1], EscapeBytes(bs[2..]) + rest);
    assert t[3..] == t1;
    assert (cp / 64) * 64 + cp % 64 == cp;
  }

  lemma Utf8Arith3(cp: int)
    requires 0x800 <= cp < 0x10000
    ensures 0xE0 <= 0xE0 + cp / 4096 < 0xF0
    ensures (cp / 4096) * 4096 + (cp / 64 % 64) * 64 + cp % 64 == cp
  {
  }

  lemma Utf8Decodes3(c: char, rest: string)
    requires 0x800 <= c as int < 0x10000
    ensures DecodeOctets(EscapeBytes(Utf8(c)) + rest) == Some((c, 9))
  {
    var bs := Utf8(c);
    var cp := c as int;
    var t := EscapeBytes(bs) + rest;
    var t1 := EscapeBytes(bs[1..]) + rest;
    var t2 := EscapeBytes(bs[2..]) + rest;
    EscapeTail(bs, rest);
    EscapeTail(bs[1..], rest);
    EscapeTail(bs[2..], rest);
    EscapeDecodes(bs[0], t1);
    ContinuationDecodes(bs[1], t2);
    ContinuationDecodes(bs[2], EscapeBytes(bs[3..]) + rest);
    assert t[3..] == t1 && t[6..] == t2;
    Utf8Arith3(cp);
    var b0: int, b1: int, b2: int := bs[0], bs[1] - 0x80, bs[2] - 0x80;
    assert DecodeEscape(t) == Some(b0);
    assert Continuation(t[3..]) == Some(b1);
    assert Continuation(t[6..]) == Some(b2);
    assert (b0 - 0xE0) * 4096 + b1 * 64 + b2 == cp;
  }

  lemma Utf8Arith4(cp: int)
    requires 0x10000 <= cp <= 0x10FFFF
    ensures 0xF0 <= 0xF0 + cp / 0x40000 < 0xF8
    ensures (cp / 0x40000) * 0x40000 + (cp / 4096 % 64) * 4096 + (cp / 64 % 64) * 64 + cp % 64 == cp
  {
  }

  lemma Utf8Decodes4(c: char, rest: string)
    requires 0x10000 <= c as int
    ensures DecodeOctets(EscapeBytes(Utf8(c)) + rest) == Some((c, 12))
  {
    var bs := Utf8(c);
    var cp := c as int;
    var t := EscapeBytes(bs) + rest;
    var t1 := EscapeBytes(bs[1..]) + rest;
    var t2 := EscapeBytes(bs[2..]) + rest;
    var t3 := EscapeBytes(bs[3..]) + rest;
    EscapeTail(bs, rest);
    EscapeTail(bs[1..], rest);
    EscapeTail(bs[2..], rest);
    EscapeTail(bs[3..], rest);
    EscapeDecodes(bs[0], t1);
    ContinuationDecodes(bs[1], t2);
    ContinuationDecodes(bs[2], t3);
    ContinuationDecodes(bs[3], EscapeBytes(bs[4..]) + rest);
    assert t[3..] == t1 && t[6..] == t2 && t[9..] == t3;
    Utf8Arith4(cp);
    var b0: int, b1: int, b2: int, b3: int := bs[0], bs[1] - 0x80, bs[2] - 0x80, bs[3] - 0x80;
    assert DecodeEscape(t) == Some(b0);
    assert Continuation(t[3..]) == Some(b1);
    assert Continuation(t[6..]) == Some(b2);
    assert Continuation(t[9..]) == Some(b3);
    assert (b0 - 0xF0) * 0x40000 + b1 * 4096 + b2 * 64 + b3 == cp;
  }

  /** The escaped UTF-8 bytes of a character decode back to that character. */
  lemma Utf8Decodes(c: char, rest: string)
    ensures DecodeOctets(EscapeBytes(Utf8(c)) + rest) == Some((c, 3 * |Utf8(c)|))
  {
    var cp := c as int;
    if cp < 0x80 {
      Utf8Decodes1(c, rest);
    } else if cp < 0x800 {
      Utf8Decodes2(c, rest);
    } else if cp < 0x10000 {
      Utf8Decodes3(c, rest);
    } else {
      Utf8Decodes4(c, rest);
    }
  }

  lemma EncodeCharDecodes(c: char, rest: string)
    ensures Decode(EncodeChar(c) + rest) == Prepend(c, Decode(rest))
  {
    var t := EncodeChar(c) + rest;
    if IsUnescaped(c) {
      assert t[0] == c && t[1..] == rest;
    } else {
      Utf8Decodes(c, rest);
      EscapeTail(Utf8(c), rest);
      assert t[3 * |Utf8(c)|..] == rest;
    }
  }

  /** decodeURIComponent(encodeURIComponent(s)) == s for every string. */
  lemma {:induction false} DecodeEncode(s: string)
    ensures Decode(Encode(s)) == Some(s)
  {
    if s != [] {
      DecodeEncode(s[1..]);
      EncodeCharDecodes(s[0], Encode(s[1..]));
      assert [s[0]] + s[1..] == s;
    }
  }
}
