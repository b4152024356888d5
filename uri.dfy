/** `encodeURIComponent` (section 19.2.6.4 of ECMA-262, the Encode
    operation of section 19.2.6.5 with the unreserved set of that section)
    and its inverse `decodeURIComponent`, over Unicode scalar values. Each
    character is kept when it is unreserved (A-Z a-z 0-9 - _ . ! ~ * ' ( ))
    and otherwise replaced by the `%XX` triplets, upper-case hexadecimal as
    in section 2.1 of RFC 3986, of its UTF-8 bytes. */
module UriEncoding {
  import opened Wrappers
  import opened Text

  newtype byte = x: int | 0 <= x < 256

  predicate IsUnreserved(c: char)
  {
    ('A' <= c <= 'Z') || ('a' <= c <= 'z') || ('0' <= c <= '9')
    || c == '-' || c == '_' || c == '.' || c == '!' || c == '~'
    || c == '*' || c == '\'' || c == '(' || c == ')'
  }

  predicate IsUpperHexDigit(c: char)
  {
    ('0' <= c <= '9') || ('A' <= c <= 'F')
  }

  predicate IsHexDigit(c: char)
  {
    IsUpperHexDigit(c) || ('a' <= c <= 'f')
  }

  /** The digit for `n`, upper case as `encodeURIComponent` writes it. */
  function HexDigit(n: int): (c: char)
    requires 0 <= n < 16
    ensures IsUpperHexDigit(c) && IsUnreserved(c)
  {
    if n < 10 then ('0' as int + n) as char else ('A' as int + n - 10) as char
  }

  /** The value of a hexadecimal digit of either case. */
  function HexValue(c: char): (n: int)
    requires IsHexDigit(c)
    ensures 0 <= n < 16
  {
    if '0' <= c <= '9' then c as int - '0' as int
    else if 'A' <= c <= 'F' then c as int - 'A' as int + 10
    else c as int - 'a' as int + 10
  }

  /** `%XX` for one byte. */
  function Triplet(b: byte): string
  {
    ['%', HexDigit(b as int / 16), HexDigit(b as int % 16)]
  }

  function EscapeBytes(bs: seq<byte>): (e: string)
    ensures |e| == 3 * |bs|
  {
    if bs == [] then [] else Triplet(bs[0]) + EscapeBytes(bs[1..])
  }

  /** The UTF-8 form of a code point (section 3.9 of the Unicode standard,
      as ECMA-262's UTF8Encode/CodePointToUTF8 writes it). */
  function Utf8(c: char): (bs: seq<byte>)
    ensures 1 <= |bs| <= 4
  {
    var n := c as int;
    if n < 0x80 then [n as byte]
    else if n < 0x800 then [(0xC0 + n / 64) as byte, (0x80 + n % 64) as byte]
    else if n < 0x10000 then
      [(0xE0 + n / 4096) as byte, (0x80 + n / 64 % 64) as byte, (0x80 + n % 64) as byte]
    else
      [(0xF0 + n / 262144) as byte, (0x80 + n / 4096 % 64) as byte,
       (0x80 + n / 64 % 64) as byte, (0x80 + n % 64) as byte]
  }

  /** One character as `encodeURIComponent` writes it. */
  function EncodeChar(c: char): string
  {
    if IsUnreserved(c) then [c] else EscapeBytes(Utf8(c))
  }

  /** `encodeURIComponent`, character by character. */
  function EncodeURIComponent(s: string): string
  {
    if s == [] then [] else EncodeChar(s[0]) + EncodeURIComponent(s[1..])
  }

  /** `encodeLine` of site/script.js: `encodeURIComponent(String(s).trim())`. */
  function EncodeLine(s: string): string
  {
    EncodeURIComponent(Trim(s))
  }

  // ---------------------------------------------------------------------
  // The inverse, `decodeURIComponent` (sections 19.2.6.3 and 19.2.6.6 of
  // ECMA-262 with an empty reserved set). It is not used by the site; it is
  // the reference against which the encoder is proved.

  /** The byte written as `%XX` at position `i`, if there is one. */
  function ByteAt(e: string, i: nat): Option<byte>
  {
    if i + 3 <= |e| && e[i] == '%' && IsHexDigit(e[i + 1]) && IsHexDigit(e[i + 2]) then
      Some((HexValue(e[i + 1]) * 16 + HexValue(e[i + 2])) as byte)
    else
      None
  }

  /** `count` consecutive triplets starting at position `i`. */
  function ReadBytes(e: string, i: nat, count: nat): (r: Option<seq<byte>>)
    ensures r.Some? ==> |r.value| == count && (count > 0 ==> i + 3 * count <= |e|)
    decreases count
  {
    if count == 0 then Some([])
    else
      match ByteAt(e, i)
      case None => None
      case Some(b) =>
        match ReadBytes(e, i + 3, count - 1)
        case None => None
        case Some(rest) => Some([b] + rest)
  }

  /** How many bytes a sequence with this first byte has: the number of its
      leading one bits, 1 for none, and 0 (an error) for one or above four. */
  function Utf8Length(b: byte): nat
  {
    if b < 0x80 then 1
    else if b < 0xC0 then 0
    else if b < 0xE0 then 2
    else if b < 0xF0 then 3
    else if b < 0xF8 then 4
    else 0
  }

  predicate IsContinuation(b: byte)
  {
    0x80 <= b < 0xC0
  }

  /** The code point of one well-formed UTF-8 sequence; overlong forms,
      surrogates and values above 0x10FFFF are not well formed. */
  function Utf8Decode(bs: seq<byte>): Option<char>
  {
    if |bs| == 1 && bs[0] < 0x80 then
      Some(bs[0] as int as char)
    else if |bs| == 2 && 0xC0 <= bs[0] < 0xE0 && IsContinuation(bs[1]) then
      var n := (bs[0] as int - 0xC0) * 64 + (bs[1] as int - 0x80);
      if n >= 0x80 then Some(n as char) else None
    else if |bs| == 3 && 0xE0 <= bs[0] < 0xF0 && IsContinuation(bs[1]) && IsContinuation(bs[2]) then
      var n := (bs[0] as int - 0xE0) * 4096 + (bs[1] as int - 0x80) * 64 + (bs[2] as int - 0x80);
      if n >= 0x800 && !(0xD800 <= n < 0xE000) then Some(n as char) else None
    else if |bs| == 4 && 0xF0 <= bs[0] < 0xF8 && IsContinuation(bs[1])
      && IsContinuation(bs[2]) && IsContinuation(bs[3]) then
      var n := (bs[0] as int - 0xF0) * 262144 + (bs[1] as int - 0x80) * 4096
        + (bs[2] as int - 0x80) * 64 + (bs[3] as int - 0x80);
      if 0x10000 <= n < 0x110000 then Some(n as char) else None
    else
      None
  }

  /** The character written by the escape at the start of `e`, and how many
      characters of `e` that escape takes. */
  function DecodeEscape(e: string): (r: Option<(char, nat)>)
    ensures r.Some? ==> 3 <= r.value.1 <= |e|
  {
    match ByteAt(e, 0)
    case None => None
    case Some(b) =>
      var n := Utf8Length(b);
      if n == 0 then None
      else
        match ReadBytes(e, 0, n)
        case None => None
        case Some(bs) =>
          match Utf8Decode(bs)
          case None => None
          case Some(c) => Some((c, 3 * n))
  }

  function Prepend(c: char, r: Option<string>): Option<string>
  {
    match r
    case None => None
    case Some(s) => Some([c] + s)
  }

  /** `decodeURIComponent`; `None` where it throws a URIError. */
  function DecodeURIComponent(e: string): Option<string>
    decreases |e|
  {
    if e == [] then Some([])
    else if e[0] != '%' then Prepend(e[0], DecodeURIComponent(e[1..]))
    else
      match DecodeEscape(e)
      case None => None
      case Some((c, n)) => Prepend(c, DecodeURIComponent(e[n..]))
  }

  // ---------------------------------------------------------------------
  // Round trip.

  lemma HexRoundTrip(n: int)
    requires 0 <= n < 16
    ensures IsHexDigit(HexDigit(n)) && HexValue(HexDigit(n)) == n
  {
  }

  /** A byte's triplet is read back as that byte. */
  lemma ByteAtTriplet(b: byte, rest: string)
    ensures ByteAt(Triplet(b) + rest, 0) == Some(b)
  {
    var e := Triplet(b) + rest;
    HexRoundTrip(b as int / 16);
    HexRoundTrip(b as int % 16);
    assert e[1] == HexDigit(b as int / 16) && e[2] == HexDigit(b as int % 16);
  }

  /** Reading is unaffected by what comes before the position read. */
  lemma ReadBytesShift(p: string, e: string, i: nat, count: nat)
    ensures ReadBytes(p + e, |p| + i, count) == ReadBytes(e, i, count)
    decreases count
  {
    if count > 0 {
      assert ByteAt(p + e, |p| + i) == ByteAt(e, i) by {
        if i + 3 <= |e| {
          assert (p + e)[|p| + i..|p| + i + 3] == e[i..i + 3];
          assert (p + e)[|p| + i] == e[i];
          assert (p + e)[|p| + i + 1] == e[i + 1];
          assert (p + e)[|p| + i + 2] == e[i + 2];
        }
      }
      ReadBytesShift(p, e, i + 3, count - 1);
    }
  }

  /** The triplets of `bs` are read back as `bs`. */
  lemma {:induction false} ReadEscapedBytes(bs: seq<byte>, rest: string)
    ensures ReadBytes(EscapeBytes(bs) + rest, 0, |bs|) == Some(bs)
    decreases |bs|
  {
    if bs != [] {
      var t := Triplet(bs[0]);
      var tail := EscapeBytes(bs[1..]) + rest;
      assert EscapeBytes(bs) + rest == t + tail;
      ReadEscapedBytes(bs[1..], rest);
      ReadAfterTriplet(t, tail, |bs| - 1, bs[1..]);
      ByteAtTriplet(bs[0], tail);
      assert [bs[0]] + bs[1..] == bs;
    }
  }

  lemma ReadAfterTriplet(t: string, tail: string, n: nat, v: seq<byte>)
    requires |t| == 3 && ReadBytes(tail, 0, n) == Some(v)
    ensures ReadBytes(t + tail, 3, n) == Some(v)
  {
    ReadBytesShift(t, tail, 0, n);
  }

  /** The UTF-8 form of a character decodes to it, and its first byte
      announces its length. */
  lemma Utf8RoundTrip(c: char)
    ensures Utf8Length(Utf8(c)[0]) == |Utf8(c)|
    ensures Utf8Decode(Utf8(c)) == Some(c)
  {
    var n := c as int;
    if n < 0x80 {
    } else if n < 0x800 {
      Utf8RoundTripTwo(c);
    } else if n < 0x10000 {
      Utf8RoundTripThree(c);
    } else {
      Utf8RoundTripFour(c);
    }
  }

  lemma Utf8RoundTripTwo(c: char)
    requires 0x80 <= c as int < 0x800
    ensures Utf8Length(Utf8(c)[0]) == 2
    ensures Utf8Decode(Utf8(c)) == Some(c)
  {
    var n := c as int;
    assert (n / 64) * 64 + n % 64 == n;
  }

  lemma Utf8RoundTripThree(c: char)
    requires 0x800 <= c as int < 0x10000
    ensures Utf8Length(Utf8(c)[0]) == 3
    ensures Utf8Decode(Utf8(c)) == Some(c)
  {
    var n := c as int;
    assert (n / 4096) * 4096 + (n / 64 % 64) * 64 + n % 64 == n by {
      assert n / 64 == (n / 4096) * 64 + n / 64 % 64;
    }
  }

  lemma Utf8RoundTripFour(c: char)
    requires 0x10000 <= c as int
    ensures Utf8Length(Utf8(c)[0]) == 4
    ensures Utf8Decode(Utf8(c)) == Some(c)
  {
    var n := c as int;
    assert n / 262144 <= 4;
    assert (n / 262144) * 262144 + (n / 4096 % 64) * 4096 + (n / 64 % 64) * 64 + n % 64 == n by {
      assert n / 4096 == (n / 262144) * 64 + n / 4096 % 64;
      assert n / 64 == (n / 4096) * 64 + n / 64 % 64;
    }
  }

  /** An escaped character is decoded back from the start of its escape. */
  lemma DecodeEscapedChar(c: char, rest: string)
    requires !IsUnreserved(c)
    ensures DecodeEscape(EncodeChar(c) + rest) == Some((c, 3 * |Utf8(c)|))
  {
    var bs := Utf8(c);
    var e := EscapeBytes(bs) + rest;
    assert EscapeBytes(bs) == Triplet(bs[0]) + EscapeBytes(bs[1..]);
    assert e == Triplet(bs[0]) + (EscapeBytes(bs[1..]) + rest);
    ByteAtTriplet(bs[0], EscapeBytes(bs[1..]) + rest);
    Utf8RoundTrip(c);
    ReadEscapedBytes(bs, rest);
  }

  /** Decoding one encoded character followed by anything. */
  lemma DecodeEncodedChar(c: char, rest: string)
    ensures DecodeURIComponent(EncodeChar(c) + rest) == Prepend(c, DecodeURIComponent(rest))
  {
    var e := EncodeChar(c) + rest;
    if IsUnreserved(c) {
      assert e[0] == c && e[1..] == rest;
    } else {
      var bs := Utf8(c);
      assert EscapeBytes(bs) == Triplet(bs[0]) + EscapeBytes(bs[1..]);
      assert e[0] == '%';
      DecodeEscapedChar(c, rest);
      assert e[3 * |bs|..] == rest;
    }
  }

  /** `decodeURIComponent(encodeURIComponent(s)) == s`. */
  lemma {:induction false} DecodeEncode(s: string)
    ensures DecodeURIComponent(EncodeURIComponent(s)) == Some(s)
  {
    if s != [] {
      DecodeEncodedChar(s[0], EncodeURIComponent(s[1..]));
      DecodeEncode(s[1..]);
      assert [s[0]] + s[1..] == s;
    }
  }

  /** Encoding works character by character, so it distributes over
      concatenation. */
  lemma {:induction false} EncodeAppend(a: string, b: string)
    ensures EncodeURIComponent(a + b) == EncodeURIComponent(a) + EncodeURIComponent(b)
    decreases |a|
  {
    if a == [] {
      assert a + b == b;
    } else {
      assert (a + b)[0] == a[0] && (a + b)[1..] == a[1..] + b;
      EncodeAppend(a[1..], b);
    }
  }

  /** Unreserved text is left as it is. */
  lemma {:induction false} EncodeUnreserved(s: string)
    requires forall k | 0 <= k < |s| :: IsUnreserved(s[k])
    ensures EncodeURIComponent(s) == s
    decreases |s|
  {
    if s != [] {
      EncodeUnreserved(s[1..]);
      assert [s[0]] + s[1..] == s;
    }
  }

  /** Percent-decoding `encodeLine(s)` gives the trimmed input. */
  lemma DecodeEncodeLine(s: string)
    ensures DecodeURIComponent(EncodeLine(s)) == Some(Trim(s))
  {
    DecodeEncode(Trim(s));
  }

  /** `encodeLine` already trims, so trimming its argument first changes
      nothing. */
  lemma EncodeLineOfTrimmed(s: string)
    ensures EncodeLine(Trim(s)) == EncodeLine(s)
  {
    TrimIdempotent(s);
  }

  /** Different inputs are encoded differently. */
  lemma EncodeInjective(s: string, t: string)
    requires EncodeURIComponent(s) == EncodeURIComponent(t)
    ensures s == t
  {
    DecodeEncode(s);
    DecodeEncode(t);
  }

  // ---------------------------------------------------------------------
  // Shape of the output.

  /** A string made of unreserved characters and `%XX` triplets only. */
  predicate IsPercentEncoded(e: string)
    decreases |e|
  {
    if e == [] then true
    else if IsUnreserved(e[0]) then IsPercentEncoded(e[1..])
    else (|e| >= 3 && e[0] == '%' && IsUpperHexDigit(e[1]) && IsUpperHexDigit(e[2])
          && IsPercentEncoded(e[3..]))
  }

  lemma {:induction false} EscapedIsPercentEncoded(bs: seq<byte>, rest: string)
    requires IsPercentEncoded(rest)
    ensures IsPercentEncoded(EscapeBytes(bs) + rest)
    decreases |bs|
  {
    if bs == [] {
      assert EscapeBytes(bs) + rest == rest;
    } else {
      var tail := EscapeBytes(bs[1..]) + rest;
      EscapedIsPercentEncoded(bs[1..], rest);
      TripletIsPercentEncoded(bs[0], tail);
      EscapeBytesCons(bs, rest);
    }
  }

  lemma EscapeBytesCons(bs: seq<byte>, rest: string)
    requires bs != []
    ensures EscapeBytes(bs) + rest == Triplet(bs[0]) + (EscapeBytes(bs[1..]) + rest)
  {
  }

  lemma TripletIsPercentEncoded(b: byte, tail: string)
    requires IsPercentEncoded(tail)
    ensures IsPercentEncoded(Triplet(b) + tail)
  {
    var e := Triplet(b) + tail;
    assert e[0] == '%' && e[1] == HexDigit(b as int / 16) && e[2] == HexDigit(b as int % 16);
    assert e[3..] == tail;
  }

  /** `encodeURIComponent` writes only unreserved characters and triplets. */
  lemma {:induction false} EncodeIsPercentEncoded(s: string)
    ensures IsPercentEncoded(EncodeURIComponent(s))
  {
    if s != [] {
      var rest := EncodeURIComponent(s[1..]);
      EncodeIsPercentEncoded(s[1..]);
      if IsUnreserved(s[0]) {
        assert ([s[0]] + rest)[1..] == rest;
      } else {
        EscapedIsPercentEncoded(Utf8(s[0]), rest);
      }
    }
  }

  /** Every character of such a string is unreserved or `%`. */
  lemma {:induction false} PercentEncodedChars(e: string)
    requires IsPercentEncoded(e)
    ensures forall k | 0 <= k < |e| :: IsUnreserved(e[k]) || e[k] == '%'
    decreases |e|
  {
    if e != [] {
      var n := if IsUnreserved(e[0]) then 1 else 3;
      PercentEncodedChars(e[n..]);
      forall k | n <= k < |e| ensures IsUnreserved(e[k]) || e[k] == '%' {
        assert e[n..][k - n] == e[k];
      }
    }
  }

  /** A percent-encoded string holds none of the URI delimiters and no
      white space. */
  lemma PercentEncodedHasNoDelimiters(e: string)
    requires IsPercentEncoded(e)
    ensures '&' !in e && '=' !in e && '?' !in e && '#' !in e
    ensures NoWhiteSpace(e)
  {
    PercentEncodedChars(e);
  }

  /** None of the URI's delimiters and no white space survive `encodeLine`,
      so user input cannot end or add a mailto header. */
  lemma EncodeLineHasNoDelimiters(s: string)
    ensures '&' !in EncodeLine(s) && '=' !in EncodeLine(s)
    ensures '?' !in EncodeLine(s) && '#' !in EncodeLine(s)
    ensures NoWhiteSpace(EncodeLine(s))
  {
    EncodeIsPercentEncoded(Trim(s));
    PercentEncodedHasNoDelimiters(EncodeLine(s));
  }

  /** Text without `%` decodes to itself. */
  lemma {:induction false} DecodePlain(s: string)
    requires '%' !in s
    ensures DecodeURIComponent(s) == Some(s)
    decreases |s|
  {
    if s != [] {
      DecodePlain(s[1..]);
      assert [s[0]] + s[1..] == s;
    }
  }
}
