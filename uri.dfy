/** JavaScript's `encodeURIComponent` and `decodeURIComponent`: percent-encoding of the
    UTF-8 octets of a string (section 2.1 of RFC 3986), with the set of characters left
    as they are that ECMAScript fixes for `encodeURIComponent`. */
module Uri {
  import opened Wrappers
  import opened Text

  /** The characters `encodeURIComponent` leaves as they are: letters, digits and
      `- _ . ! ~ * ' ( )`. */
  predicate Unescaped(c: char) {
    ('A' <= c <= 'Z') || ('a' <= c <= 'z') || IsDigit(c)
    || c == '-' || c == '_' || c == '.' || c == '!' || c == '~' || c == '*' || c == '\'' || c == '(' || c == ')'
  }

  // ---------------------------------------------------------------------------
  // UTF-8

  /** The UTF-8 octets of a Unicode scalar value. */
  function Utf8Encode(c: char): (bs: seq<byte>)
    ensures 1 <= |bs| <= 4
    ensures |bs| == 1 <==> c as int < 0x80
  {
    var cp := c as int;
    if cp < 0x80 then [cp]
    else if cp < 0x800 then [0xC0 + cp / 64, 0x80 + cp % 64]
    else if cp < 0x1_0000 then [0xE0 + cp / 4096, 0x80 + (cp / 64) % 64, 0x80 + cp % 64]
    else [0xF0 + cp / 262144, 0x80 + (cp / 4096) % 64, 0x80 + (cp / 64) % 64, 0x80 + cp % 64]
  }

  /** The number of octets a UTF-8 sequence whose first octet is `b` has; 1 for a
      continuation octet, 5 for an octet that cannot start a sequence. */
  function SequenceLength(b: byte): nat {
    if b < 0x80 then 1 else if b < 0xC0 then 0 else if b < 0xE0 then 2 else if b < 0xF0 then 3 else if b < 0xF8 then 4 else 5
  }

  predicate IsContinuation(b: byte) {
    0x80 <= b < 0xC0
  }

  /** The code point a multi-octet UTF-8 sequence encodes; `None` for an overlong form,
      a surrogate or a value above U+10FFFF (each of which `decodeURIComponent` rejects). */
  function Utf8Decode(bs: seq<byte>): (r: Option<char>)
    requires 2 <= |bs| <= 4 && SequenceLength(bs[0]) == |bs|
    requires forall i :: 1 <= i < |bs| ==> IsContinuation(bs[i])
  {
    var b0: int, b1: int := bs[0], bs[1];
    if |bs| == 2 then
      var cp := (b0 % 32) * 64 + b1 % 64;
      if cp < 0x80 then None else Some(cp as char)
    else
      var b2: int := bs[2];
      if |bs| == 3 then
        var cp := (b0 % 16) * 4096 + (b1 % 64) * 64 + b2 % 64;
        if cp < 0x800 || (0xD800 <= cp < 0xE000) then None else Some(cp as char)
      else
        var b3: int := bs[3];
        var cp := (b0 % 8) * 262144 + (b1 % 64) * 4096 + (b2 % 64) * 64 + b3 % 64;
        if cp < 0x1_0000 || cp >= 0x11_0000 then None else Some(cp as char)
  }

  lemma Utf8RoundTrip(c: char)
    requires c as int >= 0x80
    ensures var bs := Utf8Encode(c);
      SequenceLength(bs[0]) == |bs| && (forall i :: 1 <= i < |bs| ==> IsContinuation(bs[i]))
      && Utf8Decode(bs) == Some(c)
  {
    var cp := c as int;
    if cp < 0x800 {
      Utf8RoundTrip2(cp);
    } else if cp < 0x1_0000 {
      Utf8RoundTrip3(cp);
    } else {
      Utf8RoundTrip4(cp);
    }
  }

  lemma Utf8RoundTrip2(cp: int)
    requires 0x80 <= cp < 0x800
    ensures ((0xC0 + cp / 64) % 32) * 64 + (0x80 + cp % 64) % 64 == cp
  {
    var q, r := cp / 64, cp % 64;
    assert cp == 64 * q + r;
    assert (0xC0 + q) % 32 == q;
    assert (0x80 + r) % 64 == r;
  }

  lemma Utf8RoundTrip3(cp: int)
    requires 0x800 <= cp < 0x1_0000
    ensures ((0xE0 + cp / 4096) % 16) * 4096 + ((0x80 + (cp / 64) % 64) % 64) * 64 + (0x80 + cp % 64) % 64 == cp
  {
    var q, r := cp / 64, cp % 64;
    var q2, r2 := q / 64, q % 64;
    assert cp == 64 * q + r;
    assert q == 64 * q2 + r2;
    assert cp / 4096 == q2;
    assert (0xE0 + q2) % 16 == q2;
    assert (0x80 + r2) % 64 == r2;
    assert (0x80 + r) % 64 == r;
  }

  lemma Utf8RoundTrip4(cp: int)
    requires 0x1_0000 <= cp < 0x11_0000
    ensures ((0xF0 + cp / 262144) % 8) * 262144 + ((0x80 + (cp / 4096) % 64) % 64) * 4096
          + ((0x80 + (cp / 64) % 64) % 64) * 64 + (0x80 + cp % 64) % 64 == cp
    ensures cp / 262144 < 5
  {
    var q, r := cp / 64, cp % 64;
    var q2, r2 := q / 64, q % 64;
    var q3, r3 := q2 / 64, q2 % 64;
    assert cp == 64 * q + r;
    assert q == 64 * q2 + r2;
    assert q2 == 64 * q3 + r3;
    assert cp / 4096 == q2;
    assert cp / 262144 == q3;
    assert (0xF0 + q3) % 8 == q3;
    assert (0x80 + r3) % 64 == r3;
    assert (0x80 + r2) % 64 == r2;
    assert (0x80 + r) % 64 == r;
  }

  // ---------------------------------------------------------------------------
  // Percent-encoding

  function HexUpper(d: nat): (c: char)
    requires d < 16
  {
    if d < 10 then DigitChar(d) else ('A' as int + d - 10) as char
  }

  function HexValue(c: char): Option<nat> {
    if IsDigit(c) then Some(DigitValue(c))
    else if 'a' <= c <= 'f' then Some(c as int - 'a' as int + 10)
    else if 'A' <= c <= 'F' then Some(c as int - 'A' as int + 10)
    else None
  }

  /** `%XY` for one octet, with upper-case hexadecimal digits. */
  function PercentByte(b: byte): string {
    ['%', HexUpper(b / 16), HexUpper(b % 16)]
  }

  function PercentBytes(bs: seq<byte>): string {
    if bs == [] then [] else PercentByte(bs[0]) + PercentBytes(bs[1..])
  }

  function EncodeChar(c: char): string {
    if Unescaped(c) then [c] else PercentBytes(Utf8Encode(c))
  }

  /** `encodeURIComponent`.  It never throws here: strings in this model hold Unicode
      scalar values, so there is no lone surrogate for it to reject. */
  function EncodeURIComponent(s: string): string {
    if s == [] then [] else EncodeChar(s[0]) + EncodeURIComponent(s[1..])
  }

  /** Reads one `%XY` escape at the start of `s`. */
  function ReadEscape(s: string): Option<(byte, string)> {
    if |s| < 3 || s[0] != '%' then None
    else match (HexValue(s[1]), HexValue(s[2]))
      case (Some(h), Some(l)) => if h < 16 && l < 16 then Some((16 * h + l, s[3..])) else None
      case _ => None
  }

  /** Reads `count` escapes of continuation octets. */
  function ReadContinuations(s: string, count: nat): (r: Option<(seq<byte>, string)>)
    ensures r.Some? ==> |r.value.0| == count && |r.value.1| <= |s|
    ensures r.Some? ==> forall i :: 0 <= i < count ==> IsContinuation(r.value.0[i])
  {
    if count == 0 then Some(([], s))
    else match ReadEscape(s)
      case None => None
      case Some((b, rest)) =>
        if !IsContinuation(b) then None
        else match ReadContinuations(rest, count - 1)
          case None => None
          case Some((bs, rest')) => Some(([b] + bs, rest'))
  }

  function ConsChar(c: char, r: Option<string>): Option<string> {
    match r
    case None => None
    case Some(t) => Some([c] + t)
  }

  /** `decodeURIComponent`; `None` where it throws a URIError: a `%` not followed by two
      hexadecimal digits, an octet that cannot start a UTF-8 sequence, a missing or
      malformed continuation, or an ill-formed sequence. */
  function DecodeURIComponent(s: string): Option<string>
    decreases |s|
  {
    if s == [] then Some([])
    else if s[0] != '%' then ConsChar(s[0], DecodeURIComponent(s[1..]))
    else match ReadEscape(s)
      case None => None
      case Some((b, rest)) =>
        var n := SequenceLength(b);
        if n == 1 then ConsChar(b as char, DecodeURIComponent(rest))
        else if n < 2 || n > 4 then None
        else match ReadContinuations(rest, n - 1)
          case None => None
          case Some((bs, rest')) =>
            match Utf8Decode([b] + bs)
            case None => None
            case Some(c) => ConsChar(c, DecodeURIComponent(rest'))
  }

  // ---------------------------------------------------------------------------
  // Properties

  lemma HexUpperValue(d: nat)
    requires d < 16
    ensures HexValue(HexUpper(d)) == Some(d)
  {
  }

  lemma ReadPercentByte(b: byte, rest: string)
    ensures ReadEscape(PercentByte(b) + rest) == Some((b, rest))
  {
    HexUpperValue(b / 16);
    HexUpperValue(b % 16);
    assert (PercentByte(b) + rest)[3..] == rest;
  }

  lemma {:induction false} ReadContinuationsOf(bs: seq<byte>, rest: string)
    requires forall i :: 0 <= i < |bs| ==> IsContinuation(bs[i])
    ensures ReadContinuations(PercentBytes(bs) + rest, |bs|) == Some((bs, rest))
  {
    if bs != [] {
      var tail := PercentBytes(bs[1..]) + rest;
      ConcatAssoc(PercentByte(bs[0]), PercentBytes(bs[1..]), rest);
      ReadPercentByte(bs[0], tail);
      ReadContinuationsOf(bs[1..], rest);
      assert IsContinuation(bs[0]);
      assert ReadContinuations(PercentBytes(bs) + rest, |bs|) == Some(([bs[0]] + bs[1..], rest));
      assert [bs[0]] + bs[1..] == bs;
    } else {
      assert PercentBytes(bs) + rest == rest;
    }
  }

  /** One step of `decodeURIComponent` over a multi-octet sequence. */
  lemma DecodeSequenceStep(s: string, b: byte, rest: string, bs: seq<byte>, rest': string, c: char)
    requires s != [] && s[0] == '%'
    requires ReadEscape(s) == Some((b, rest))
    requires 2 <= SequenceLength(b) <= 4
    requires ReadContinuations(rest, SequenceLength(b) - 1) == Some((bs, rest'))
    requires Utf8Decode([b] + bs) == Some(c)
    ensures DecodeURIComponent(s) == ConsChar(c, DecodeURIComponent(rest'))
  {
  }

  /** Decoding the escapes of one character and then `rest`. */
  lemma DecodeEncodedChar(c: char, rest: string, t: string)
    requires DecodeURIComponent(rest) == Some(t)
    ensures DecodeURIComponent(EncodeChar(c) + rest) == Some([c] + t)
  {
    if Unescaped(c) {
      assert (EncodeChar(c) + rest)[1..] == rest;
    } else if c as int < 0x80 {
      DecodeAsciiEscape(c, rest, t);
    } else {
      DecodeMultiByte(c, rest, t);
    }
  }

  lemma DecodeAsciiEscape(c: char, rest: string, t: string)
    requires !Unescaped(c) && c as int < 0x80
    requires DecodeURIComponent(rest) == Some(t)
    ensures DecodeURIComponent(EncodeChar(c) + rest) == Some([c] + t)
  {
    var b: byte := c as int;
    assert Utf8Encode(c) == [b];
    assert PercentBytes([b]) == PercentByte(b) + [];
    var s := EncodeChar(c) + rest;
    assert s == PercentByte(b) + rest;
    ReadPercentByte(b, rest);
    assert (b as char) == c;
  }

  lemma DecodeMultiByte(c: char, rest: string, t: string)
    requires c as int >= 0x80
    requires DecodeURIComponent(rest) == Some(t)
    ensures DecodeURIComponent(EncodeChar(c) + rest) == Some([c] + t)
  {
    var bs := Utf8Encode(c);
    var tail := PercentBytes(bs[1..]) + rest;
    var s := EncodeChar(c) + rest;
    assert !Unescaped(c);
    assert EncodeChar(c) == PercentByte(bs[0]) + PercentBytes(bs[1..]);
    ConcatAssoc(PercentByte(bs[0]), PercentBytes(bs[1..]), rest);
    ReadPercentByte(bs[0], tail);
    Utf8RoundTrip(c);
    ReadContinuationsOf(bs[1..], rest);
    assert [bs[0]] + bs[1..] == bs;
    DecodeSequenceStep(s, bs[0], tail, bs[1..], rest, c);
  }

  /** `decodeURIComponent(encodeURIComponent(s)) === s`. */
  lemma {:induction false} DecodeEncode(s: string)
    ensures DecodeURIComponent(EncodeURIComponent(s)) == Some(s)
  {
    if s != [] {
      DecodeEncode(s[1..]);
      DecodeEncodedChar(s[0], EncodeURIComponent(s[1..]), s[1..]);
      assert [s[0]] + s[1..] == s;
    }
  }

  /** Every character of `encodeURIComponent`'s output is ASCII. */
  lemma {:induction false} EncodeIsAscii(s: string)
    ensures forall i :: 0 <= i < |EncodeURIComponent(s)| ==> EncodeURIComponent(s)[i] as int < 0x80
  {
    if s != [] {
      EncodeIsAscii(s[1..]);
      EncodeCharIsAscii(s[0]);
    }
  }

  lemma EncodeCharIsAscii(c: char)
    ensures forall i :: 0 <= i < |EncodeChar(c)| ==> EncodeChar(c)[i] as int < 0x80
  {
    if !Unescaped(c) {
      PercentBytesAscii(Utf8Encode(c));
    }
  }

  lemma {:induction false} PercentBytesAscii(bs: seq<byte>)
    ensures forall i :: 0 <= i < |PercentBytes(bs)| ==> PercentBytes(bs)[i] as int < 0x80
  {
    if bs != [] {
      PercentBytesAscii(bs[1..]);
    }
  }
}
