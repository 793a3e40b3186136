/** `encodeRFC5987`: the UTF-8 file name of the `filename*` parameter, the
    `value-chars` of an `ext-value` (section 3.2.1 of RFC 5987), as
    `encodeURIComponent` followed by three replacements. */
module Rfc5987 {
  import opened Wrappers
  import opened Text
  import opened Seqs

  type Byte = x: int | 0 <= x < 256

  /** The UTF-8 encoding of one scalar value (section 3 of RFC 3629). */
  function Utf8(c: char): (bs: seq<Byte>)
    ensures 1 <= |bs| <= 4
  {
    var n := c as int;
    if n < 0x80 then [n]
    else if n < 0x800 then [0xC0 + n / 64, 0x80 + n % 64]
    else if n < 0x10000 then [0xE0 + n / 4096, 0x80 + (n / 64) % 64, 0x80 + n % 64]
    else [0xF0 + n / 262144, 0x80 + (n / 4096) % 64, 0x80 + (n / 64) % 64, 0x80 + n % 64]
  }

  /** The scalar value a well-formed UTF-8 sequence of one character
      denotes. */
  function Utf8Value(bs: seq<Byte>): int
    requires 1 <= |bs| <= 4
  {
    var b := seq(|bs|, k requires 0 <= k < |bs| => bs[k] as int);
    if |bs| == 1 then b[0]
    else if |bs| == 2 then (b[0] - 0xC0) * 64 + (b[1] - 0x80)
    else if |bs| == 3 then (b[0] - 0xE0) * 4096 + (b[1] - 0x80) * 64 + (b[2] - 0x80)
    else (b[0] - 0xF0) * 262144 + (b[1] - 0x80) * 4096 + (b[2] - 0x80) * 64 + (b[3] - 0x80)
  }

  /** The encoding of a character decodes back to it, with the lead byte
      announcing the length. */
  lemma Utf8RoundTrip(c: char)
    ensures Utf8Value(Utf8(c)) == c as int
    ensures var bs := Utf8(c);
      && (|bs| == 1 <==> bs[0] < 0x80)
      && (|bs| > 1 ==> bs[0] >= 0xC0 && forall k | 1 <= k < |bs| :: 0x80 <= bs[k] < 0xC0)
  {
    var n := c as int;
    if n >= 0x10000 {
      assert n / 262144 * 262144 + (n / 4096) % 64 * 4096 + (n / 64) % 64 * 64 + n % 64 == n by {
        SplitBase64(n / 64);
        SplitBase64(n / 4096);
        DivDiv(n);
      }
    } else if n >= 0x800 {
      assert n / 4096 * 4096 + (n / 64) % 64 * 64 + n % 64 == n by {
        SplitBase64(n / 64);
        DivDiv(n);
      }
    }
  }

  lemma SplitBase64(m: int)
    requires m >= 0
    ensures m == m / 64 * 64 + m % 64
  {}

  lemma DivDiv(n: int)
    requires n >= 0
    ensures n / 64 / 64 == n / 4096 && n / 4096 / 64 == n / 262144
    ensures n == n / 64 * 64 + n % 64
  {}

  /** The bytes of a whole string. */
  function Utf8Of(s: string): seq<Byte> {
    if s == [] then [] else Utf8(s[0]) + Utf8Of(s[1..])
  }

  const UpperHex: string := "0123456789ABCDEF"

  predicate IsUpperHexDigit(c: char) { IsDigit(c) || 'A' <= c <= 'F' }

  /** `%HH` with upper-case hex digits. */
  function PercentByte(b: Byte): string {
    ['%', UpperHex[b / 16], UpperHex[b % 16]]
  }

  function PercentBytes(bs: seq<Byte>): string {
    if bs == [] then [] else PercentByte(bs[0]) + PercentBytes(bs[1..])
  }

  /** The triplets of a non-empty byte sequence followed by a text: the
      first triplet, then the rest. */
  lemma PercentBytesCons(bs: seq<Byte>, rest: string)
    requires bs != []
    ensures PercentBytes(bs) + rest == PercentByte(bs[0]) + (PercentBytes(bs[1..]) + rest)
  {
    ConcatAssoc(PercentByte(bs[0]), PercentBytes(bs[1..]), rest);
  }

  /** The characters `encodeURIComponent` leaves alone. */
  predicate IsUriUnreserved(c: char) {
    IsAsciiLetter(c) || IsDigit(c) || c in "-_.!~*'()"
  }

  /** `encodeURIComponent`, one character at a time. */
  function UriStep(c: char): string {
    if IsUriUnreserved(c) then [c] else PercentBytes(Utf8(c))
  }

  /** `.replace(/['()]/g, escape)`. */
  function EscapeStep(c: char): string {
    if c in "'()" then PercentByte(c as int) else [c]
  }

  /** `.replace(/\*\/g, '%2A')`. */
  function StarStep(c: char): string {
    if c == '*' then "%2A" else [c]
  }

  /** `encodeRFC5987(str)`. The last replacement of the source upper-cases
      the hex digits of `%7C`, `%60` and `%5E`, which its case-sensitive
      pattern only finds already upper-cased; it changes nothing and is not
      modelled. */
  function Encode(s: string): string {
    MapChars(MapChars(MapChars(s, UriStep), EscapeStep), StarStep)
  }

  /** The characters the encoder emits unescaped. */
  predicate IsEmitted(c: char) {
    IsAsciiLetter(c) || IsDigit(c) || c in "-_.!~"
  }

  /** `attr-char` of section 3.2.1 of RFC 5987. */
  predicate IsAttrChar(c: char) {
    IsAsciiLetter(c) || IsDigit(c) || c in "!#$&+-.^_`|~"
  }

  lemma EmittedAreAttrChars(c: char)
    ensures IsEmitted(c) ==> IsAttrChar(c)
  {}

  /** A sequence of emitted characters and `%HH` triplets with upper-case
      hex digits. */
  predicate WellEncoded(t: string)
    decreases |t|
  {
    if t == [] then true
    else if t[0] == '%' then |t| >= 3 && IsUpperHexDigit(t[1]) && IsUpperHexDigit(t[2]) && WellEncoded(t[3..])
    else IsEmitted(t[0]) && WellEncoded(t[1..])
  }

  /** What one character becomes. */
  function EncodeChar(c: char): string {
    MapChars(MapChars(UriStep(c), EscapeStep), StarStep)
  }

  /** A character is emitted as itself or as the `%HH` triplets of its UTF-8
      bytes; in particular `'`, `(`, `)` and `*` are escaped. */
  lemma EncodeCharShape(c: char)
    ensures EncodeChar(c) == if IsEmitted(c) then [c] else PercentBytes(Utf8(c))
  {
    if IsEmitted(c) {
      EmittedKept(c);
    } else if c == '*' {
      StarEscaped();
    } else if c in "'()" {
      QuoteEscaped(c);
    } else {
      ReservedEscaped(c);
    }
  }

  lemma ReservedEscaped(c: char)
    requires !IsUriUnreserved(c)
    ensures EncodeChar(c) == PercentBytes(Utf8(c))
  {
    assert UriStep(c) == PercentBytes(Utf8(c));
    HexKept();
    PercentBytesKept(Utf8(c), EscapeStep);
    PercentBytesKept(Utf8(c), StarStep);
  }

  /** The escape and star replacements leave `%` and the hex digits
      alone. */
  lemma HexKept()
    ensures forall c | c == '%' || c in UpperHex :: EscapeStep(c) == [c]
    ensures forall c | c == '%' || c in UpperHex :: StarStep(c) == [c]
  {}

  lemma EmittedKept(c: char)
    requires IsEmitted(c)
    ensures EncodeChar(c) == [c]
  {
    assert [c][1..] == [];
    assert UriStep(c) == [c];
    assert MapChars([c], EscapeStep) == [c];
    assert MapChars([c], StarStep) == [c];
  }

  lemma StarEscaped()
    ensures EncodeChar('*') == PercentBytes(Utf8('*'))
  {
    assert ['*'][1..] == [];
    assert MapChars(['*'], EscapeStep) == ['*'];
    assert "%2A"[1..] == "2A" && "2A"[1..] == "A" && "A"[1..] == [];
    assert MapChars("%2A", StarStep) == "%2A";
    assert PercentBytes([0x2A]) == PercentByte(0x2A) + PercentBytes([]);
  }

  lemma QuoteEscaped(c: char)
    requires c in "'()"
    ensures EncodeChar(c) == PercentBytes(Utf8(c))
  {
    assert [c][1..] == [];
    assert UriStep(c) == [c];
    assert MapChars([c], EscapeStep) == PercentByte(c as int);
    assert PercentBytes([c as int]) == PercentByte(c as int) + PercentBytes([]);
    HexKept();
    PercentBytesKept([c as int], StarStep);
  }

  /** The triplets pass the escape and star replacements unchanged. */
  lemma PercentBytesKept(bs: seq<Byte>, f: char -> string)
    requires forall c | c == '%' || c in UpperHex :: f(c) == [c]
    ensures MapChars(PercentBytes(bs), f) == PercentBytes(bs)
  {
    forall c | c in PercentBytes(bs) ensures f(c) == [c] {
      PercentBytesChars(bs);
    }
    MapCharsKeeps(PercentBytes(bs), f);
  }

  lemma {:induction false} PercentBytesChars(bs: seq<Byte>)
    ensures forall c | c in PercentBytes(bs) :: c == '%' || c in UpperHex
  {
    if bs != [] {
      PercentBytesChars(bs[1..]);
    }
  }

  /** The encoder works character by character. */
  lemma {:induction false} EncodeByChars(s: string)
    ensures Encode(s) == MapChars(s, EncodeChar)
    decreases |s|
  {
    if s != [] {
      EncodeByChars(s[1..]);
      var c := s[0];
      var u := MapChars(s[1..], UriStep);
      assert MapChars(s, UriStep) == UriStep(c) + u;
      MapCharsConcat(UriStep(c), u, EscapeStep);
      MapCharsConcat(MapChars(UriStep(c), EscapeStep), MapChars(u, EscapeStep), StarStep);
    }
  }

  /** The output is a well-formed `value-chars`. */
  lemma EncodeWellEncoded(s: string)
    ensures WellEncoded(Encode(s))
  {
    EncodeByChars(s);
    CharsWellEncoded(s);
  }

  lemma {:induction false} CharsWellEncoded(s: string)
    ensures WellEncoded(MapChars(s, EncodeChar))
    decreases |s|
  {
    if s != [] {
      CharsWellEncoded(s[1..]);
      EncodeCharWellEncoded(s[0], MapChars(s[1..], EncodeChar));
    }
  }

  /** One encoded character in front of a well-encoded text keeps it well
      encoded. */
  lemma EncodeCharWellEncoded(c: char, rest: string)
    requires WellEncoded(rest)
    ensures WellEncoded(EncodeChar(c) + rest)
  {
    EncodeCharShape(c);
    if IsEmitted(c) {
      assert ([c] + rest)[1..] == rest;
    } else {
      PercentBytesWellEncoded(Utf8(c), rest);
    }
  }

  lemma {:induction false} PercentBytesWellEncoded(bs: seq<Byte>, rest: string)
    requires WellEncoded(rest)
    ensures WellEncoded(PercentBytes(bs) + rest)
    decreases |bs|
  {
    if bs != [] {
      PercentBytesWellEncoded(bs[1..], rest);
      PercentByteWellEncoded(bs[0], PercentBytes(bs[1..]) + rest);
      PercentBytesCons(bs, rest);
    } else {
      assert PercentBytes(bs) + rest == rest;
    }
  }

  /** One triplet in front of a well-encoded text keeps it well encoded. */
  lemma PercentByteWellEncoded(b: Byte, rest: string)
    requires WellEncoded(rest)
    ensures WellEncoded(PercentByte(b) + rest)
  {
    var t := PercentByte(b) + rest;
    assert t[3..] == rest;
    HexDigitValue(b / 16);
    HexDigitValue(b % 16);
  }

  /** `%XX` decoding to bytes; any character that is neither part of a
      triplet nor ASCII is rejected. */
  function PercentDecode(t: string): Option<seq<Byte>>
    decreases |t|
  {
    if t == [] then Some([])
    else if t[0] == '%' then
      if |t| >= 3 && IsHexDigit(t[1]) && IsHexDigit(t[2]) then
        var rest :- PercentDecode(t[3..]);
        Some([DigitValue(t[1]) * 16 + DigitValue(t[2])] + rest)
      else None
    else if IsAscii(t[0]) then
      var rest :- PercentDecode(t[1..]);
      Some([t[0] as int] + rest)
    else None
  }

  /** Percent-decoding the encoding gives back the UTF-8 bytes. */
  lemma DecodeEncode(s: string)
    ensures PercentDecode(Encode(s)) == Some(Utf8Of(s))
  {
    EncodeByChars(s);
    DecodeChars(s);
  }

  lemma {:induction false} DecodeChars(s: string)
    ensures PercentDecode(MapChars(s, EncodeChar)) == Some(Utf8Of(s))
    decreases |s|
  {
    if s != [] {
      DecodeChars(s[1..]);
      DecodeCharStep(s[0], MapChars(s[1..], EncodeChar), Utf8Of(s[1..]));
    }
  }

  /** One encoded character decodes to its UTF-8 bytes. */
  lemma DecodeCharStep(c: char, rest: string, tail: seq<Byte>)
    requires PercentDecode(rest) == Some(tail)
    ensures PercentDecode(EncodeChar(c) + rest) == Some(Utf8(c) + tail)
  {
    EncodeCharShape(c);
    if IsEmitted(c) {
      assert ([c] + rest)[1..] == rest;
    } else {
      DecodePercentBytes(Utf8(c), rest, tail);
    }
  }

  lemma {:induction false} DecodePercentBytes(bs: seq<Byte>, rest: string, tail: seq<Byte>)
    requires PercentDecode(rest) == Some(tail)
    ensures PercentDecode(PercentBytes(bs) + rest) == Some(bs + tail)
    decreases |bs|
  {
    if bs != [] {
      DecodePercentBytes(bs[1..], rest, tail);
      PercentByteDecodes(bs[0], PercentBytes(bs[1..]) + rest, bs[1..] + tail);
      PercentBytesCons(bs, rest);
      assert bs == [bs[0]] + bs[1..];
      ConcatAssoc([bs[0]], bs[1..], tail);
    } else {
      assert PercentBytes(bs) + rest == rest;
      assert bs + tail == tail;
    }
  }

  /** One triplet decodes to its byte. */
  lemma PercentByteDecodes(b: Byte, rest: string, tail: seq<Byte>)
    requires PercentDecode(rest) == Some(tail)
    ensures PercentDecode(PercentByte(b) + rest) == Some([b] + tail)
  {
    var t := PercentByte(b) + rest;
    assert t[3..] == rest;
    HexDigitValue(b / 16);
    HexDigitValue(b % 16);
    assert DigitValue(t[1]) * 16 + DigitValue(t[2]) == b;
  }

  lemma HexDigitValue(d: nat)
    requires d < 16
    ensures IsUpperHexDigit(UpperHex[d]) && IsHexDigit(UpperHex[d]) && DigitValue(UpperHex[d]) == d
  {}

  /** The four characters escaped on top of `encodeURIComponent` become
      `%27`, `%28`, `%29` and `%2A`. */
  lemma SpecialChar(c: char)
    requires c in "'()*"
    ensures Encode([c]) == PercentByte(c as int)
  {
    EncodeByChars([c]);
    EncodeCharShape(c);
    assert [c][1..] == [];
    assert MapChars([c], EncodeChar) == EncodeChar(c) + MapChars([], EncodeChar);
    assert PercentBytes([c as int]) == PercentByte(c as int) + PercentBytes([]);
  }

  /** Their triplets are `%2` followed by the low hex digit. */
  lemma SpecialTriplet(c: char)
    requires c in "'()*"
    ensures PercentByte(c as int) == ['%', '2', UpperHex[c as int - 0x20]]
  {}

  /** Wherever `'`, `(`, `)` or `*` stands in a name, the encoding has
      `%27`, `%28`, `%29` or `%2A` in its place, between the encodings of
      what precedes and what follows it. */
  lemma SpecialEscapedIn(a: string, c: char, b: string)
    requires c in "'()*"
    ensures Encode(a + [c] + b) == Encode(a) + ['%', '2', UpperHex[c as int - 0x20]] + Encode(b)
  {
    EncodeByChars(a + [c] + b);
    EncodeByChars(a);
    EncodeByChars([c]);
    EncodeByChars(b);
    MapCharsConcat(a + [c], b, EncodeChar);
    MapCharsConcat(a, [c], EncodeChar);
    SpecialChar(c);
    SpecialTriplet(c);
  }
}
