/** The browser's `btoa` and `atob`: Base64 (section 4 of RFC 4648, with `=` padding)
    over "binary strings", whose characters each stand for one octet, and the WHATWG
    forgiving-base64 decoder that `atob` uses. */
module Base64 {
  import opened Wrappers
  import opened Text

  // ---------------------------------------------------------------------------
  // The alphabet

  predicate IsBase64Char(c: char) {
    ('A' <= c <= 'Z') || ('a' <= c <= 'z') || IsDigit(c) || c == '+' || c == '/'
  }

  /** Every character is in the alphabet. */
  predicate AllBase64(t: string) {
    forall i :: 0 <= i < |t| ==> IsBase64Char(t[i])
  }

  /** The character of the Base64 alphabet for the 6-bit value `d`. */
  function SextetChar(d: nat): (c: char)
    requires d < 64
    ensures IsBase64Char(c)
  {
    if d < 26 then ('A' as int + d) as char
    else if d < 52 then ('a' as int + d - 26) as char
    else if d < 62 then ('0' as int + d - 52) as char
    else if d == 62 then '+'
    else '/'
  }

  /** The 6-bit value of a character: its position in the alphabet. A character
      outside the alphabet is never decoded; it counts as 63 here. */
  function SextetValue(c: char): (d: nat)
    ensures d < 64
  {
    PositionFrom(c, 0)
  }

  /** The first position from `k` on whose alphabet character is `c`. */
  function PositionFrom(c: char, k: nat): (d: nat)
    requires k <= 64
    ensures d < 64
    decreases 64 - k
  {
    if k == 64 then 63 else if SextetChar(k) == c then k else PositionFrom(c, k + 1)
  }

  /** Different values have different characters. */
  lemma SextetCharInjective(j: nat, k: nat)
    requires j < 64 && k < 64 && j != k
    ensures SextetChar(j) != SextetChar(k)
  {
  }

  lemma {:induction false} PositionFromChar(d: nat, k: nat)
    requires k <= d < 64
    ensures PositionFrom(SextetChar(d), k) == d
    decreases d - k
  {
    if k < d {
      SextetCharInjective(k, d);
      PositionFromChar(d, k + 1);
    }
  }

  /** Decoding a character gives back the value it was encoded from. */
  lemma SextetValueOfChar(d: nat)
    requires d < 64
    ensures SextetValue(SextetChar(d)) == d
  {
    PositionFromChar(d, 0);
  }

  /** Every alphabet character is the character of its value. */
  lemma SextetCharOfValue(c: char)
    requires IsBase64Char(c)
    ensures SextetChar(SextetValue(c)) == c
  {
    var d: nat := if 'A' <= c <= 'Z' then c as int - 'A' as int
      else if 'a' <= c <= 'z' then c as int - 'a' as int + 26
      else if IsDigit(c) then c as int - '0' as int + 52
      else if c == '+' then 62
      else 63;
    assert SextetChar(d) == c;
    SextetValueOfChar(d);
  }

  // ---------------------------------------------------------------------------
  // Binary strings

  /** Every character is a single octet, as `btoa` demands. */
  predicate IsLatin1(s: string) {
    forall i :: 0 <= i < |s| ==> s[i] as int < 256
  }

  function Latin1Bytes(s: string): (bs: seq<byte>)
    requires IsLatin1(s)
    ensures |bs| == |s| && forall i :: 0 <= i < |s| ==> bs[i] == s[i] as int
  {
    seq(|s|, i requires 0 <= i < |s| => s[i] as int)
  }

  function BytesToString(bs: seq<byte>): (s: string)
    ensures |s| == |bs| && forall i :: 0 <= i < |bs| ==> s[i] as int == bs[i]
  {
    seq(|bs|, i requires 0 <= i < |bs| => bs[i] as char)
  }

  // ---------------------------------------------------------------------------
  // Encoding

  /** The alphabet characters for `bs`, three octets to four characters; a final one
      or two octets give two or three characters. */
  function EncodeQuanta(bs: seq<byte>): (r: string)
    decreases |bs|
  {
    if |bs| == 0 then []
    else
      var b0: int := bs[0];
      if |bs| == 1 then [SextetChar(b0 / 4), SextetChar((b0 % 4) * 16)]
      else
        var b1: int := bs[1];
        if |bs| == 2 then [SextetChar(b0 / 4), SextetChar((b0 % 4) * 16 + b1 / 16), SextetChar((b1 % 16) * 4)]
        else
          Quantum(b0, b1, bs[2]) + EncodeQuanta(bs[3..])
  }

  /** The four characters for three octets. */
  function Quantum(b0: byte, b1: byte, b2: byte): (r: string)
    ensures |r| == 4
  {
    [SextetChar(b0 / 4), SextetChar((b0 % 4) * 16 + b1 / 16), SextetChar((b1 % 16) * 4 + b2 / 64), SextetChar(b2 % 64)]
  }

  /** The `=` characters that fill the last quantum up to four characters. */
  function Padding(n: nat): string {
    if n % 3 == 1 then "==" else if n % 3 == 2 then "=" else ""
  }

  function Encode(bs: seq<byte>): string {
    EncodeQuanta(bs) + Padding(|bs|)
  }

  /** `btoa`: `None` where it throws InvalidCharacterError, on a character above U+00FF. */
  function Btoa(s: string): (r: Option<string>)
    ensures r.Some? <==> IsLatin1(s)
  {
    if IsLatin1(s) then Some(Encode(Latin1Bytes(s))) else None
  }

  // ---------------------------------------------------------------------------
  // Forgiving decoding

  /** The white space the forgiving decoder removes: tab, line feed, form feed,
      carriage return and space. */
  predicate IsAsciiWhitespace(c: char) {
    c == '\t' || c == '\n' || c == '\U{000C}' || c == '\r' || c == ' '
  }

  function StripWhitespace(s: string): (r: string)
    ensures |r| <= |s|
    ensures forall i :: 0 <= i < |r| ==> !IsAsciiWhitespace(r[i])
  {
    if s == [] then []
    else if IsAsciiWhitespace(s[0]) then StripWhitespace(s[1..])
    else [s[0]] + StripWhitespace(s[1..])
  }

  /** One or two trailing `=` are removed when the length is a multiple of four. */
  function StripPadding(d: string): (t: string)
    ensures |t| <= |d| && t == d[..|t|]
  {
    if |d| % 4 == 0 && |d| >= 2 && d[|d| - 2] == '=' && d[|d| - 1] == '=' then d[..|d| - 2]
    else if |d| % 4 == 0 && |d| >= 1 && d[|d| - 1] == '=' then d[..|d| - 1]
    else d
  }

  /** The octets that a run of alphabet characters stands for; leftover bits of a
      final group of two or three characters are discarded. `Atob` only calls it on
      alphabet characters whose number leaves remainder 0, 2 or 3 after division by
      four. */
  function DecodeSextets(t: string): (bs: seq<byte>)
    decreases |t|
  {
    if |t| <= 1 then []
    else if |t| < 4 then Partial(t)
    else Group(t[..4]) + DecodeSextets(t[4..])
  }

  /** The octets of a final group of two or three characters. */
  function Partial(t: string): seq<byte>
    requires 2 <= |t| <= 3
  {
    var v0, v1 := SextetValue(t[0]), SextetValue(t[1]);
    if |t| == 2 then [v0 * 4 + v1 / 16]
    else [v0 * 4 + v1 / 16, (v1 % 16) * 16 + SextetValue(t[2]) / 4]
  }

  /** The three octets of a group of four characters. */
  function Group(q: string): seq<byte>
    requires |q| == 4
  {
    var v0, v1, v2, v3 := SextetValue(q[0]), SextetValue(q[1]), SextetValue(q[2]), SextetValue(q[3]);
    [v0 * 4 + v1 / 16, (v1 % 16) * 16 + v2 / 4, (v2 % 4) * 64 + v3]
  }

  /** `atob`: `None` where it throws InvalidCharacterError, on a length that leaves
      remainder 1 after the padding is removed, or on a character outside the
      alphabet. */
  function Atob(s: string): (r: Option<string>)
    ensures r.Some? ==> IsLatin1(r.value)
  {
    var t := StripPadding(StripWhitespace(s));
    if |t| % 4 == 1 then None
    else if exists i :: 0 <= i < |t| && !IsBase64Char(t[i]) then None
    else Some(BytesToString(DecodeSextets(t)))
  }

  // ---------------------------------------------------------------------------
  // Properties

  /** The length of the encoding is a multiple of four, no more than four characters
      a quantum. */
  lemma {:induction false} EncodeQuantaLength(bs: seq<byte>)
    ensures |EncodeQuanta(bs)| == 4 * (|bs| / 3) + (if |bs| % 3 == 0 then 0 else |bs| % 3 + 1)
    decreases |bs|
  {
    if |bs| >= 3 {
      EncodeQuantaLength(bs[3..]);
    }
  }

  lemma EncodeLength(bs: seq<byte>)
    ensures |Encode(bs)| % 4 == 0
    ensures |Encode(bs)| == 0 <==> bs == []
  {
    EncodeQuantaLength(bs);
    PaddedLength(|bs|);
  }

  lemma PaddedLength(n: nat)
    ensures var m := 4 * (n / 3) + (if n % 3 == 0 then 0 else n % 3 + 1) + |Padding(n)|;
      m % 4 == 0 && (m == 0 <==> n == 0)
  {
  }

  /** What `btoa` outputs is alphabet characters followed by at most two `=`. */
  lemma EncodeAlphabet(bs: seq<byte>)
    ensures forall i :: 0 <= i < |Encode(bs)| ==> IsBase64Char(Encode(bs)[i]) || Encode(bs)[i] == '='
  {
    EncodeQuantaAlphabet(bs);
  }

  /** The quanta are alphabet characters only. */
  lemma {:induction false} EncodeQuantaAlphabet(bs: seq<byte>)
    ensures AllBase64(EncodeQuanta(bs))
    decreases |bs|
  {
    if |bs| >= 3 {
      EncodeQuantaAlphabet(bs[3..]);
      EncodeQuantaStep(bs);
      AlphabetConcat(Quantum(bs[0], bs[1], bs[2]), EncodeQuanta(bs[3..]));
    }
  }

  lemma AlphabetConcat(a: string, b: string)
    requires AllBase64(a) && AllBase64(b)
    ensures AllBase64(a + b)
  {
  }

  lemma {:induction false} DecodeEncodeQuanta(bs: seq<byte>)
    ensures DecodeSextets(EncodeQuanta(bs)) == bs
    decreases |bs|, 1
  {
    if |bs| == 1 {
      DecodeLastOne(bs);
    } else if |bs| == 2 {
      DecodeLastTwo(bs);
    } else if |bs| >= 3 {
      DecodeEncodeMore(bs);
    }
  }

  lemma {:induction false} DecodeEncodeMore(bs: seq<byte>)
    requires |bs| >= 3
    ensures DecodeSextets(EncodeQuanta(bs)) == bs
    decreases |bs|, 0
  {
    var r := EncodeQuanta(bs[3..]);
    DecodeEncodeQuanta(bs[3..]);
    EncodeQuantaStep(bs);
    DecodeQuantum(bs[0], bs[1], bs[2], r);
    assert bs == [bs[0], bs[1], bs[2]] + bs[3..];
  }

  lemma EncodeQuantaStep(bs: seq<byte>)
    requires |bs| >= 3
    ensures EncodeQuanta(bs) == Quantum(bs[0], bs[1], bs[2]) + EncodeQuanta(bs[3..])
  {
  }

  /** No encoding leaves a single character over. */
  lemma EncodeQuantaNotOne(bs: seq<byte>)
    ensures |EncodeQuanta(bs)| % 4 != 1
  {
    EncodeQuantaLength(bs);
    QuantaLengthMod(|bs|);
  }

  lemma DecodeLastOne(bs: seq<byte>)
    requires |bs| == 1
    ensures |EncodeQuanta(bs)| == 2 && DecodeSextets(EncodeQuanta(bs)) == bs
  {
    var b0: int := bs[0];
    var t := EncodeQuanta(bs);
    assert t == [SextetChar(b0 / 4), SextetChar((b0 % 4) * 16)];
    SextetValueOfChar(b0 / 4);
    SextetValueOfChar((b0 % 4) * 16);
    DecodeTwoChars(t, bs[0]);
  }

  /** Two characters whose values are those `btoa` gives a final octet decode to it. */
  lemma DecodeTwoChars(t: string, b0: byte)
    requires |t| == 2
    requires SextetValue(t[0]) == b0 / 4 && SextetValue(t[1]) == (b0 % 4) * 16
    ensures DecodeSextets(t) == [b0]
  {
  }

  lemma DecodeLastTwo(bs: seq<byte>)
    requires |bs| == 2
    ensures |EncodeQuanta(bs)| == 3 && DecodeSextets(EncodeQuanta(bs)) == bs
  {
    var b0: int, b1: int := bs[0], bs[1];
    var t := EncodeQuanta(bs);
    assert t == [SextetChar(b0 / 4), SextetChar((b0 % 4) * 16 + b1 / 16), SextetChar((b1 % 16) * 4)];
    SextetValueOfChar(b0 / 4);
    SextetValueOfChar((b0 % 4) * 16 + b1 / 16);
    SextetValueOfChar((b1 % 16) * 4);
    DecodeThreeChars(t, bs[0], bs[1]);
    assert bs == [bs[0], bs[1]];
  }

  /** Three characters whose values are those `btoa` gives two final octets decode
      to them. */
  lemma DecodeThreeChars(t: string, b0: byte, b1: byte)
    requires |t| == 3
    requires SextetValue(t[0]) == b0 / 4 && SextetValue(t[1]) == (b0 % 4) * 16 + b1 / 16
    requires SextetValue(t[2]) == (b1 % 16) * 4
    ensures DecodeSextets(t) == [b0, b1]
  {
    TwoOctets(b0, b1);
  }

  /** Decoding a quantum and then the rest. */
  lemma DecodeQuantum(b0: byte, b1: byte, b2: byte, t: string)
    ensures DecodeSextets(Quantum(b0, b1, b2) + t) == [b0, b1, b2] + DecodeSextets(t)
  {
    QuantumDecode(b0, b1, b2);
    DecodeGroup(Quantum(b0, b1, b2), t);
  }

  lemma DecodeGroup(q: string, t: string)
    requires |q| == 4
    ensures DecodeSextets(q + t) == DecodeSextets(q) + DecodeSextets(t)
  {
    var e := q + t;
    assert e[4..] == t;
    assert q[4..] == [];
    assert e[..4] == q;
    DecodeFirstGroup(e);
    DecodeFirstGroup(q);
  }

  /** `DecodeSextets` on four characters or more: the group of the first four, then
      the rest. */
  lemma DecodeFirstGroup(e: string)
    requires |e| >= 4
    ensures DecodeSextets(e) == Group(e[..4]) + DecodeSextets(e[4..])
  {
  }


  /** The four characters of a quantum decode to its three octets. */
  lemma QuantumDecode(b0: byte, b1: byte, b2: byte)
    ensures DecodeSextets(Quantum(b0, b1, b2)) == [b0, b1, b2]
  {
    QuantumValues(b0, b1, b2);
    DecodeFour(Quantum(b0, b1, b2), b0, b1, b2);
  }

  /** Four characters whose values are those of the quantum of three octets decode to
      those octets. */
  lemma DecodeFour(q: string, b0: byte, b1: byte, b2: byte)
    requires |q| == 4
    requires SextetValue(q[0]) == b0 / 4 && SextetValue(q[1]) == (b0 % 4) * 16 + b1 / 16
    requires SextetValue(q[2]) == (b1 % 16) * 4 + b2 / 64 && SextetValue(q[3]) == b2 % 64
    ensures DecodeSextets(q) == [b0, b1, b2]
  {
    DecodeFirstGroup(q);
    assert q[..4] == q && q[4..] == [];
    assert DecodeSextets(q[4..]) == [];
    GroupOf(q, b0, b1, b2);
  }

  lemma GroupOf(q: string, b0: byte, b1: byte, b2: byte)
    requires |q| == 4
    requires SextetValue(q[0]) == b0 / 4 && SextetValue(q[1]) == (b0 % 4) * 16 + b1 / 16
    requires SextetValue(q[2]) == (b1 % 16) * 4 + b2 / 64 && SextetValue(q[3]) == b2 % 64
    ensures Group(q) == [b0, b1, b2]
  {
    ThreeOctets(b0, b1, b2);
  }

  /** The six-bit values of the four characters of a quantum. */
  lemma QuantumValues(b0: byte, b1: byte, b2: byte)
    ensures var q := Quantum(b0, b1, b2);
      SextetValue(q[0]) == b0 / 4 && SextetValue(q[1]) == (b0 % 4) * 16 + b1 / 16
      && SextetValue(q[2]) == (b1 % 16) * 4 + b2 / 64 && SextetValue(q[3]) == b2 % 64
  {
    SextetValueOfChar(b0 / 4);
    SextetValueOfChar((b0 % 4) * 16 + b1 / 16);
    SextetValueOfChar((b1 % 16) * 4 + b2 / 64);
    SextetValueOfChar(b2 % 64);
  }

  lemma TwoOctets(b0: byte, b1: byte)
    ensures var v0, v1, v2 := b0 / 4, (b0 % 4) * 16 + b1 / 16, (b1 % 16) * 4;
      v0 * 4 + v1 / 16 == b0 && (v1 % 16) * 16 + v2 / 4 == b1
  {
  }

  lemma ThreeOctets(b0: byte, b1: byte, b2: byte)
    ensures var v0, v1, v2, v3 := b0 / 4, (b0 % 4) * 16 + b1 / 16, (b1 % 16) * 4 + b2 / 64, b2 % 64;
      v0 * 4 + v1 / 16 == b0 && (v1 % 16) * 16 + v2 / 4 == b1 && (v2 % 4) * 64 + v3 == b2
  {
  }

  lemma {:induction false} StripWhitespaceNone(s: string)
    requires forall i :: 0 <= i < |s| ==> !IsAsciiWhitespace(s[i])
    ensures StripWhitespace(s) == s
  {
    if s != [] {
      StripWhitespaceNone(s[1..]);
    }
  }

  /** The forgiving decoder gives back exactly the octets `btoa` encoded. */
  lemma AtobEncode(bs: seq<byte>)
    ensures Atob(Encode(bs)) == Some(BytesToString(bs))
  {
    var q := EncodeQuanta(bs);
    var e := Encode(bs);
    EncodeAlphabet(bs);
    EncodeQuantaAlphabet(bs);
    StripWhitespaceNone(e);
    StripPaddingEncode(bs);
    EncodeQuantaNotOne(bs);
    DecodeEncodeQuanta(bs);
    AtobOf(e, q);
  }

  /** The padding `btoa` adds is the padding the decoder removes. */
  lemma StripPaddingEncode(bs: seq<byte>)
    ensures StripPadding(Encode(bs)) == EncodeQuanta(bs)
  {
    EncodeQuantaLength(bs);
    EncodeQuantaAlphabet(bs);
    StripPaddingOf(EncodeQuanta(bs), |bs|);
  }

  lemma StripPaddingOf(q: string, n: nat)
    requires AllBase64(q)
    requires |q| == 4 * (n / 3) + (if n % 3 == 0 then 0 else n % 3 + 1)
    ensures StripPadding(q + Padding(n)) == q
  {
    QuantaLengthMod(n);
    if n % 3 == 0 {
      assert |q| % 4 == 0 && Padding(n) == "";
      StripNoPadding(q);
    } else if n % 3 == 2 {
      assert |q| % 4 == 3 && Padding(n) == "=";
      StripOnePad(q);
    } else {
      assert |q| % 4 == 2 && Padding(n) == "==";
      StripTwoPads(q);
    }
  }

  lemma QuantaLengthMod(n: nat)
    ensures var m := 4 * (n / 3) + (if n % 3 == 0 then 0 else n % 3 + 1);
      (n % 3 == 0 ==> m % 4 == 0) && (n % 3 == 1 ==> m % 4 == 2) && (n % 3 == 2 ==> m % 4 == 3)
  {
  }

  lemma StripNoPadding(q: string)
    requires AllBase64(q) && |q| % 4 == 0
    ensures StripPadding(q + "") == q
  {
    assert q + "" == q;
    if q != [] {
      assert IsBase64Char(q[|q| - 1]);
    }
  }

  lemma StripOnePad(q: string)
    requires AllBase64(q) && |q| % 4 == 3
    ensures StripPadding(q + "=") == q
  {
    var e := q + "=";
    assert e[|e| - 2] == q[|q| - 1] && IsBase64Char(q[|q| - 1]);
    assert e[|e| - 1] == '=';
    assert e[..|e| - 1] == q;
  }

  lemma StripTwoPads(q: string)
    requires |q| % 4 == 2
    ensures StripPadding(q + "==") == q
  {
    var e := q + "==";
    assert e[|e| - 2] == '=' && e[|e| - 1] == '=';
    assert e[..|e| - 2] == q;
  }

  /** `atob` on a text that is alphabet characters once white space and padding are
      removed. */
  lemma AtobOf(e: string, t: string)
    requires StripPadding(StripWhitespace(e)) == t
    requires AllBase64(t) && |t| % 4 != 1
    ensures Atob(e) == Some(BytesToString(DecodeSextets(t)))
  {
  }

  /** `atob(btoa(s)) === s` for every string `btoa` accepts. */
  lemma AtobBtoa(s: string)
    requires IsLatin1(s)
    ensures Atob(Btoa(s).value) == Some(s)
  {
    AtobEncode(Latin1Bytes(s));
    assert BytesToString(Latin1Bytes(s)) == s;
  }

  /** Padding is removed only from a whole number of quanta: `atob("QQ==")` is "A",
      while in `atob("QQ=")` the `=` stays and is rejected. */
  lemma AtobPadding()
    ensures Atob("QQ==") == Some("A")
    ensures Atob("QQ=") == None
  {
    DecodeQQ();
    assert StripWhitespace("QQ==") == "QQ==";
    assert StripPadding("QQ==") == "QQ";
    assert IsBase64Char('Q');
    assert StripWhitespace("QQ=") == "QQ=";
    assert !IsBase64Char("QQ="[2]);
  }

  /** The two characters `QQ` stand for the one octet 65, the letter A. */
  lemma DecodeQQ()
    ensures BytesToString(DecodeSextets("QQ")) == "A"
  {
    assert SextetChar(16) == 'Q';
    SextetValueOfChar(16);
    assert DecodeSextets("QQ") == Partial("QQ") == [65];
  }
}
