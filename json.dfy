/** JSON text as the cache and the storage helpers use it: `JSON.stringify` and
    `JSON.parse` over a value type that covers what the application stores (null,
    booleans, integers, strings, arrays, objects with ordered keys).  `Stringify`
    writes canonical JSON text with no white space; `Parse` accepts exactly that
    canonical form, and `ParseStringify` proves that it inverts `Stringify`. */
module Json {
  import opened Wrappers
  import opened Text

  datatype Json =
    | JNull
    | JBool(b: bool)
    | JNum(n: int)
    | JStr(s: string)
    | JArr(items: seq<Json>)
    | JObj(fields: seq<Field>)

  datatype Field = Field(key: string, val: Json)

  /** A JavaScript value handed to `JSON.stringify`: a JSON-representable value,
      `undefined` (for which `JSON.stringify` returns `undefined` instead of text), or a
      value it throws on (a BigInt, a cyclic object). */
  datatype JsValue = Plain(json: Json) | Undefined | Unserialisable

  /** What `JSON.stringify` gives back: text, `undefined`, or an exception. */
  datatype StringifyResult = Text(text: string) | NoText | Throws

  /** JavaScript truthiness of a JSON value. */
  predicate Truthy(v: Json) {
    match v
    case JNull => false
    case JBool(b) => b
    case JNum(n) => n != 0
    case JStr(s) => s != []
    case _ => true
  }

  // ---------------------------------------------------------------------------
  // Objects

  /** The value of the last field named `k`, as a property read of an object built
      from these fields would give. */
  function FieldValue(fields: seq<Field>, k: string): (r: Option<Json>)
    ensures r.Some? <==> exists i :: 0 <= i < |fields| && fields[i].key == k
    decreases |fields|
  {
    if fields == [] then None
    else match FieldValue(fields[1..], k)
      case Some(v) => Some(v)
      case None =>
        assert forall i :: 1 <= i < |fields| ==> fields[i] == fields[1..][i - 1];
        if fields[0].key == k then Some(fields[0].val) else None
  }

  /** Assigns `f.val` to property `f.key`: a present key keeps its place, a new key is
      added at the end. */
  function Put(fields: seq<Field>, f: Field): (r: seq<Field>)
    ensures FieldValue(r, f.key) == Some(f.val)
    ensures forall k :: k != f.key ==> FieldValue(r, k) == FieldValue(fields, k)
  {
    if FieldValue(fields, f.key).Some? then Replace(fields, f) else
      PutAppended(fields, f);
      fields + [f]
  }

  lemma PutAppended(fields: seq<Field>, f: Field)
    ensures FieldValue(fields + [f], f.key) == Some(f.val)
    ensures forall k :: k != f.key ==> FieldValue(fields + [f], k) == FieldValue(fields, k)
    decreases |fields|
  {
    if fields != [] {
      PutAppended(fields[1..], f);
      assert (fields + [f])[1..] == fields[1..] + [f];
    }
  }

  /** Every field named `f.key` takes the value `f.val`. */
  function Replace(fields: seq<Field>, f: Field): (r: seq<Field>)
    requires FieldValue(fields, f.key).Some?
    ensures FieldValue(r, f.key) == Some(f.val)
    ensures forall k :: k != f.key ==> FieldValue(r, k) == FieldValue(fields, k)
    decreases |fields|
  {
    var head := if fields[0].key == f.key then f else fields[0];
    if FieldValue(fields[1..], f.key).Some? then [head] + Replace(fields[1..], f)
    else
      assert fields[0].key == f.key;
      [head] + fields[1..]
  }

  /** `{ ...target, ...source }` for the fields of `source`, taken in order. */
  function Spread(target: seq<Field>, source: seq<Field>): (r: seq<Field>)
    decreases |source|
  {
    if source == [] then target else Spread(Put(target, source[0]), source[1..])
  }

  /** The merged object has `source`'s value for each key it names and `target`'s
      for every other key. */
  lemma {:induction false} SpreadValue(target: seq<Field>, source: seq<Field>, k: string)
    ensures FieldValue(Spread(target, source), k) ==
      if FieldValue(source, k).Some? then FieldValue(source, k) else FieldValue(target, k)
    decreases |source|
  {
    if source != [] {
      SpreadValue(Put(target, source[0]), source[1..], k);
    }
  }

  /** No key occurs twice, as in the properties of a JavaScript object. */
  predicate DistinctKeys(fields: seq<Field>) {
    forall i, j :: 0 <= i < j < |fields| ==> fields[i].key != fields[j].key
  }

  /** Every object inside `v` has distinct keys: `v` stands for a JavaScript value. */
  predicate WellFormed(v: Json)
    decreases v, 1
  {
    match v
    case JArr(items) => ItemsWellFormed(items)
    case JObj(fields) => DistinctKeys(fields) && FieldsWellFormed(fields)
    case _ => true
  }

  predicate ItemsWellFormed(items: seq<Json>)
    decreases items, 0
  {
    forall i :: 0 <= i < |items| ==> WellFormed(items[i])
  }

  predicate FieldsWellFormed(fields: seq<Field>)
    decreases fields, 0
  {
    forall i :: 0 <= i < |fields| ==> WellFormed(fields[i].val)
  }

  /** `Replace` keeps every key in its place and only swaps in `f`. */
  lemma {:induction false} ReplaceShape(fields: seq<Field>, f: Field)
    requires FieldValue(fields, f.key).Some?
    ensures |Replace(fields, f)| == |fields|
    ensures forall i :: 0 <= i < |fields| ==>
      Replace(fields, f)[i].key == fields[i].key && (Replace(fields, f)[i] == f || Replace(fields, f)[i] == fields[i])
    decreases |fields|
  {
    if FieldValue(fields[1..], f.key).Some? {
      ReplaceShape(fields[1..], f);
      var r, tail := Replace(fields, f), Replace(fields[1..], f);
      assert r[1..] == tail;
      forall i | 1 <= i < |fields|
        ensures r[i].key == fields[i].key && (r[i] == f || r[i] == fields[i])
      {
        assert r[i] == tail[i - 1] && fields[i] == fields[1..][i - 1];
      }
    }
  }

  /** An assignment keeps the keys distinct and the values well-formed. */
  lemma PutWellFormed(fields: seq<Field>, f: Field)
    requires DistinctKeys(fields) && FieldsWellFormed(fields) && WellFormed(f.val)
    ensures DistinctKeys(Put(fields, f)) && FieldsWellFormed(Put(fields, f))
  {
    if FieldValue(fields, f.key).Some? {
      ReplaceShape(fields, f);
    }
  }

  lemma {:induction false} SpreadWellFormed(target: seq<Field>, source: seq<Field>)
    requires DistinctKeys(target) && FieldsWellFormed(target) && FieldsWellFormed(source)
    ensures DistinctKeys(Spread(target, source)) && FieldsWellFormed(Spread(target, source))
    decreases |source|
  {
    if source != [] {
      PutWellFormed(target, source[0]);
      SpreadWellFormed(Put(target, source[0]), source[1..]);
    }
  }

  /** Assigning properties whose keys are new, and distinct, appends them in order. */
  lemma {:induction false} SpreadFresh(target: seq<Field>, source: seq<Field>)
    requires DistinctKeys(target + source)
    ensures Spread(target, source) == target + source
    decreases |source|
  {
    if source != [] {
      var t := target + [source[0]];
      assert target + source == t + source[1..];
      assert forall i :: 0 <= i < |target| ==> target[i].key != source[0].key by {
        forall i | 0 <= i < |target|
          ensures target[i].key != source[0].key
        {
          assert (target + source)[i] == target[i];
          assert (target + source)[|target|] == source[0];
        }
      }
      assert Put(target, source[0]) == t;
      SpreadFresh(t, source[1..]);
    }
  }

  // ---------------------------------------------------------------------------
  // Writing

  function HexDigit(d: nat): (c: char)
    requires d < 16
  {
    if d < 10 then DigitChar(d) else ('a' as int + d - 10) as char
  }

  /** How `JSON.stringify` writes one character of a string: quote, backslash and the
      control characters are escaped, with the short forms where JSON has them. */
  function EscapeChar(c: char): (r: string)
    ensures |r| >= 1 && r[0] != '"' && r[0] >= ' '
  {
    if c == '"' then ['\\', '"']
    else if c == '\\' then ['\\', '\\']
    else if c == '\U{0008}' then ['\\', 'b']
    else if c == '\t' then ['\\', 't']
    else if c == '\n' then ['\\', 'n']
    else if c == '\U{000C}' then ['\\', 'f']
    else if c == '\r' then ['\\', 'r']
    else if c < ' ' then ['\\', 'u', '0', '0', HexDigit(c as int / 16), HexDigit(c as int % 16)]
    else [c]
  }

  function Escape(s: string): string {
    if s == [] then [] else EscapeChar(s[0]) + Escape(s[1..])
  }

  function Quote(s: string): string {
    "\"" + Escape(s) + "\""
  }

  /** The characters a value's text can start with. */
  predicate ValueStart(c: char) {
    c == 'n' || c == 't' || c == 'f' || c == '"' || c == '[' || c == '{' || c == '-' || IsDigit(c)
  }

  /** `JSON.stringify` on a JSON-representable value. */
  function Stringify(v: Json): (r: string)
    ensures |r| >= 1 && ValueStart(r[0])
  {
    match v
    case JNull => "null"
    case JBool(b) => if b then "true" else "false"
    case JNum(n) => IntToString(n)
    case JStr(s) => Quote(s)
    case JArr(items) => "[" + Elements(items) + "]"
    case JObj(fields) => "{" + Members(fields) + "}"
  }

  function Elements(items: seq<Json>): string {
    if |items| == 0 then ""
    else if |items| == 1 then Stringify(items[0])
    else Stringify(items[0]) + "," + Elements(items[1..])
  }

  function Member(f: Field): string {
    Quote(f.key) + ":" + Stringify(f.val)
  }

  function Members(fields: seq<Field>): string {
    if |fields| == 0 then ""
    else if |fields| == 1 then Member(fields[0])
    else Member(fields[0]) + "," + Members(fields[1..])
  }

  /** `JSON.stringify` on any JavaScript value. */
  function StringifyJs(v: JsValue): (r: StringifyResult)
    ensures v.Plain? <==> r.Text?
    ensures r.Text? ==> r.text == Stringify(v.json)
    ensures v.Undefined? <==> r.NoText?
  {
    match v
    case Plain(j) => Text(Stringify(j))
    case Undefined => NoText
    case Unserialisable => Throws
  }

  // ---------------------------------------------------------------------------
  // Reading

  function HexValue(c: char): Option<nat> {
    if IsDigit(c) then Some(DigitValue(c))
    else if 'a' <= c <= 'f' then Some(c as int - 'a' as int + 10)
    else if 'A' <= c <= 'F' then Some(c as int - 'A' as int + 10)
    else None
  }

  /** The value of four hexadecimal digits. */
  function Hex4(s: string): Option<nat>
    requires |s| == 4
  {
    match (HexValue(s[0]), HexValue(s[1]), HexValue(s[2]), HexValue(s[3]))
    case (Some(a), Some(b), Some(c), Some(d)) => Some(4096 * a + 256 * b + 16 * c + d)
    case _ => None
  }

  /** The character a one-letter escape stands for. */
  function SimpleEscape(e: char): Option<char> {
    if e == '"' then Some('"')
    else if e == '\\' then Some('\\')
    else if e == '/' then Some('/')
    else if e == 'b' then Some('\U{0008}')
    else if e == 't' then Some('\t')
    else if e == 'n' then Some('\n')
    else if e == 'f' then Some('\U{000C}')
    else if e == 'r' then Some('\r')
    else None
  }

  predicate IsScalarValue(n: int) {
    (0 <= n < 0xD800) || (0xE000 <= n < 0x11_0000)
  }

  function ConsChar(c: char, r: Option<(string, string)>): Option<(string, string)> {
    match r
    case None => None
    case Some((t, rest)) => Some(([c] + t, rest))
  }

  /** Reads the body of a string literal up to its closing quote; gives the string and
      the text after the quote. */
  function ParseStringBody(s: string): (r: Option<(string, string)>)
    ensures r.Some? ==> |r.value.1| < |s|
    decreases |s|
  {
    if s == [] then None
    else if s[0] == '"' then Some(([], s[1..]))
    else if s[0] == '\\' then
      if |s| < 2 then None
      else if s[1] == 'u' then
        if |s| < 6 then None
        else match Hex4(s[2..6])
          case None => None
          case Some(n) => if IsScalarValue(n) then ConsChar(n as char, ParseStringBody(s[6..])) else None
      else match SimpleEscape(s[1])
        case None => None
        case Some(c) => ConsChar(c, ParseStringBody(s[2..]))
    else if s[0] < ' ' then None
    else ConsChar(s[0], ParseStringBody(s[1..]))
  }

  /** A natural number without leading zeros, and the text after it. */
  function ParseNat(s: string): (r: Option<(nat, string)>)
    ensures r.Some? ==> |r.value.1| < |s|
  {
    var n := DigitRun(s);
    if n == 0 || (n > 1 && s[0] == '0') then None else Some((DigitsValue(s[..n]), s[n..]))
  }

  /** Reads one value at the start of `s`; gives the value and the text after it.
      The first character decides what kind of value is read. */
  function ParseValue(s: string): (r: Option<(Json, string)>)
    ensures r.Some? ==> |r.value.1| < |s|
    decreases |s|, 2
  {
    if s == [] then None
    else if s[0] == 'n' || s[0] == 't' || s[0] == 'f' then ParseLiteral(s)
    else if s[0] == '"' then ParseString(s)
    else if s[0] == '[' then ParseArray(s)
    else if s[0] == '{' then ParseObject(s)
    else ParseNumber(s)
  }

  function ParseLiteral(s: string): (r: Option<(Json, string)>)
    ensures r.Some? ==> |r.value.1| < |s|
  {
    if StartsWith(s, "null") then Some((JNull, s[4..]))
    else if StartsWith(s, "true") then Some((JBool(true), s[4..]))
    else if StartsWith(s, "false") then Some((JBool(false), s[5..]))
    else None
  }

  function ParseString(s: string): (r: Option<(Json, string)>)
    requires s != [] && s[0] == '"'
    ensures r.Some? ==> |r.value.1| < |s|
  {
    match ParseStringBody(s[1..])
    case None => None
    case Some((t, rest)) => Some((JStr(t), rest))
  }

  function ParseNumber(s: string): (r: Option<(Json, string)>)
    ensures r.Some? ==> |r.value.1| < |s|
  {
    if s != [] && s[0] == '-' then
      match ParseNat(s[1..])
      case None => None
      case Some((n, rest)) => Some((JNum(-(n as int)), rest))
    else
      match ParseNat(s)
      case None => None
      case Some((n, rest)) => Some((JNum(n), rest))
  }

  function ParseArray(s: string): (r: Option<(Json, string)>)
    requires s != [] && s[0] == '['
    ensures r.Some? ==> |r.value.1| < |s|
    decreases |s|, 1
  {
    if |s| >= 2 && s[1] == ']' then Some((JArr([]), s[2..]))
    else match ParseElements(s[1..])
      case None => None
      case Some((items, rest)) => Some((JArr(items), rest))
  }

  /** The object is built by assigning the members in order, so a repeated key keeps
      its first place and takes its last value. */
  function ParseObject(s: string): (r: Option<(Json, string)>)
    requires s != [] && s[0] == '{'
    ensures r.Some? ==> |r.value.1| < |s|
    decreases |s|, 1
  {
    if |s| >= 2 && s[1] == '}' then Some((JObj([]), s[2..]))
    else match ParseMembers(s[1..])
      case None => None
      case Some((fields, rest)) => Some((JObj(Spread([], fields)), rest))
  }

  /** Reads `v1,v2,...]`; gives the values and the text after the bracket. */
  function ParseElements(s: string): (r: Option<(seq<Json>, string)>)
    ensures r.Some? ==> |r.value.1| < |s|
    decreases |s|, 3
  {
    match ParseValue(s)
    case None => None
    case Some((v, rest)) =>
      if rest != [] && rest[0] == ']' then Some(([v], rest[1..]))
      else if rest != [] && rest[0] == ',' then
        match ParseElements(rest[1..])
        case None => None
        case Some((vs, rest')) => Some(([v] + vs, rest'))
      else None
  }

  /** Reads `"k1":v1,"k2":v2,...}`; gives the fields and the text after the brace. */
  function ParseMembers(s: string): (r: Option<(seq<Field>, string)>)
    ensures r.Some? ==> |r.value.1| < |s|
    decreases |s|, 3
  {
    if s == [] || s[0] != '"' then None
    else match ParseStringBody(s[1..])
      case None => None
      case Some((k, afterKey)) =>
        if afterKey == [] || afterKey[0] != ':' then None
        else match ParseValue(afterKey[1..])
          case None => None
          case Some((v, rest)) =>
            if rest != [] && rest[0] == '}' then Some(([Field(k, v)], rest[1..]))
            else if rest != [] && rest[0] == ',' then
              match ParseMembers(rest[1..])
              case None => None
              case Some((fs, rest')) => Some(([Field(k, v)] + fs, rest'))
            else None
  }

  /** `JSON.parse`: a whole text that is exactly one value; `None` where it throws. */
  function Parse(s: string): Option<Json> {
    match ParseValue(s)
    case Some((v, rest)) => if rest == [] then Some(v) else None
    case None => None
  }

  // ---------------------------------------------------------------------------
  // The round trip

  lemma HexDigitValue(d: nat)
    requires d < 16
    ensures HexValue(HexDigit(d)) == Some(d)
  {
  }

  lemma {:induction false} EscapeRoundTrip(t: string, rest: string)
    ensures ParseStringBody(Escape(t) + "\"" + rest) == Some((t, rest))
  {
    if t == [] {
      assert Escape(t) + "\"" + rest == "\"" + rest;
    } else {
      var tail := Escape(t[1..]) + "\"" + rest;
      assert Escape(t) + "\"" + rest == EscapeChar(t[0]) + tail;
      EscapeRoundTrip(t[1..], rest);
      EscapeCharRead(t[0], tail);
      assert [t[0]] + t[1..] == t;
    }
  }

  /** Reading the escaped form of one character gives that character back. */
  lemma EscapeCharRead(c: char, tail: string)
    ensures ParseStringBody(EscapeChar(c) + tail) == ConsChar(c, ParseStringBody(tail))
  {
    if c < ' ' && c != '\U{0008}' && c != '\t' && c != '\n' && c != '\U{000C}' && c != '\r' {
      EscapeControlRead(c, tail);
    } else if EscapeChar(c) == [c] {
      assert (EscapeChar(c) + tail)[1..] == tail;
    } else {
      assert (EscapeChar(c) + tail)[2..] == tail;
    }
  }

  lemma EscapeControlRead(c: char, tail: string)
    requires c < ' ' && c != '\U{0008}' && c != '\t' && c != '\n' && c != '\U{000C}' && c != '\r'
    ensures ParseStringBody(EscapeChar(c) + tail) == ConsChar(c, ParseStringBody(tail))
  {
    var s := EscapeChar(c) + tail;
    HexDigitValue(c as int / 16);
    HexDigitValue(c as int % 16);
    assert s[2..6] == ['0', '0', HexDigit(c as int / 16), HexDigit(c as int % 16)];
    assert Hex4(s[2..6]) == Some(c as int);
    assert s[6..] == tail;
  }

  lemma NatRoundTrip(m: nat, rest: string)
    requires rest == [] || !IsDigit(rest[0])
    ensures ParseNat(NatToString(m) + rest) == Some((m, rest))
  {
    var d := NatToString(m);
    DigitRunOf(m, rest);
    assert (d + rest)[..|d|] == d;
    assert (d + rest)[|d|..] == rest;
    NatToStringValue(m);
  }

  lemma NotStartsWith(s: string, p: string)
    requires |s| > 0 && |p| > 0 && s[0] != p[0]
    ensures !StartsWith(s, p)
  {
    if |p| <= |s| {
      assert s[..|p|][0] == s[0];
    }
  }

  lemma LiteralRoundTrip(v: Json, rest: string)
    requires v.JNull? || v.JBool?
    ensures ParseValue(Stringify(v) + rest) == Some((v, rest))
  {
    var s := Stringify(v) + rest;
    if v.JNull? {
      assert s[..4] == "null";
    } else if v.b {
      assert s[..4] == "true";
      NotStartsWith(s, "null");
    } else {
      assert s[..5] == "false";
      NotStartsWith(s, "null");
      NotStartsWith(s, "true");
    }
  }

  lemma NumRoundTrip(n: int, rest: string)
    requires rest == [] || !IsDigit(rest[0])
    ensures ParseValue(Stringify(JNum(n)) + rest) == Some((JNum(n), rest))
  {
    if n < 0 {
      NegRoundTrip(-n, rest);
    } else {
      NonNegRoundTrip(n, rest);
    }
  }

  lemma NegRoundTrip(m: nat, rest: string)
    requires m > 0
    requires rest == [] || !IsDigit(rest[0])
    ensures ParseValue(Stringify(JNum(-(m as int))) + rest) == Some((JNum(-(m as int)), rest))
  {
    var s := Stringify(JNum(-(m as int))) + rest;
    NegText(m, rest);
    NatRoundTrip(m, rest);
    ParseNegative(s, m, rest);
    ParseValueNumber(s);
  }

  lemma NegText(m: nat, rest: string)
    requires m > 0
    ensures (Stringify(JNum(-(m as int))) + rest)[0] == '-'
    ensures (Stringify(JNum(-(m as int))) + rest)[1..] == NatToString(m) + rest
  {
    var d := NatToString(m);
    assert Stringify(JNum(-(m as int))) == "-" + d;
    ConcatAssoc("-", d, rest);
  }

  lemma ParseNegative(s: string, m: nat, rest: string)
    requires s != [] && s[0] == '-' && ParseNat(s[1..]) == Some((m, rest))
    ensures ParseNumber(s) == Some((JNum(-(m as int)), rest))
  {
  }

  /** A text that starts with neither a literal, a quote nor a bracket is read as a
      number. */
  lemma ParseValueNumber(s: string)
    requires s != [] && !(s[0] in "ntf\"[{")
    ensures ParseValue(s) == ParseNumber(s)
  {
  }

  lemma NonNegRoundTrip(m: nat, rest: string)
    requires rest == [] || !IsDigit(rest[0])
    ensures ParseValue(Stringify(JNum(m)) + rest) == Some((JNum(m), rest))
  {
    var d := NatToString(m);
    var s := d + rest;
    assert Stringify(JNum(m)) == d;
    assert s[0] == d[0] && IsDigit(s[0]);
    NatRoundTrip(m, rest);
    assert ParseNumber(s) == Some((JNum(m), rest));
  }

  lemma StrRoundTrip(t: string, rest: string)
    ensures ParseValue(Stringify(JStr(t)) + rest) == Some((JStr(t), rest))
  {
    var s := Stringify(JStr(t)) + rest;
    assert s == "\"" + (Escape(t) + "\"" + rest);
    EscapeRoundTrip(t, rest);
  }

  lemma {:induction false} ArrRoundTrip(items: seq<Json>, rest: string)
    requires ItemsWellFormed(items)
    ensures ParseValue(Stringify(JArr(items)) + rest) == Some((JArr(items), rest))
    decreases items, 1
  {
    var s := Stringify(JArr(items)) + rest;
    if items == [] {
      assert Stringify(JArr(items)) == "[" + "" + "]" == "[]";
      assert s == "[]" + rest;
    } else {
      BracketText("[", Elements(items), "]", rest);
      ElementsRoundTrip(items, rest);
      assert Elements(items)[0] == Stringify(items[0])[0];
      ParseArrayOf(s, items, rest);
    }
  }

  lemma {:induction false} ObjRoundTrip(fields: seq<Field>, rest: string)
    requires DistinctKeys(fields) && FieldsWellFormed(fields)
    ensures ParseValue(Stringify(JObj(fields)) + rest) == Some((JObj(fields), rest))
    decreases fields, 2
  {
    var s := Stringify(JObj(fields)) + rest;
    if fields == [] {
      assert Stringify(JObj(fields)) == "{" + "" + "}" == "{}";
      assert s == "{}" + rest;
    } else {
      BracketText("{", Members(fields), "}", rest);
      MembersRoundTrip(fields, rest);
      assert Members(fields)[0] == '"';
      ParseObjectOf(s, fields, rest);
      assert [] + fields == fields;
      SpreadFresh([], fields);
    }
  }

  /** The text between an opening bracket and the rest. */
  lemma BracketText(open: string, body: string, close: string, rest: string)
    requires |open| == 1
    ensures (open + body + close + rest)[0] == open[0]
    ensures (open + body + close + rest)[1..] == body + close + rest
  {
    ConcatShift(open, "", body, close, rest);
    assert open + "" == open;
  }

  lemma ParseArrayOf(s: string, items: seq<Json>, rest: string)
    requires |s| >= 2 && s[0] == '[' && s[1] != ']'
    requires ParseElements(s[1..]) == Some((items, rest))
    ensures ParseValue(s) == Some((JArr(items), rest))
  {
  }

  lemma ParseObjectOf(s: string, fields: seq<Field>, rest: string)
    requires |s| >= 2 && s[0] == '{' && s[1] != '}'
    requires ParseMembers(s[1..]) == Some((fields, rest))
    ensures ParseValue(s) == Some((JObj(Spread([], fields)), rest))
  {
  }

  /** Reading the text of `v` followed by `rest` gives `v` and leaves `rest`, provided
      `rest` cannot be taken for more digits of a number. */
  lemma {:induction false} ValueRoundTrip(v: Json, rest: string)
    requires WellFormed(v)
    requires rest == [] || !IsDigit(rest[0])
    ensures ParseValue(Stringify(v) + rest) == Some((v, rest))
    decreases v, 2
  {
    match v
    case JNull => LiteralRoundTrip(v, rest);
    case JBool(_) => LiteralRoundTrip(v, rest);
    case JNum(n) => NumRoundTrip(n, rest);
    case JStr(t) => StrRoundTrip(t, rest);
    case JArr(items) => ArrRoundTrip(items, rest);
    case JObj(fields) => ObjRoundTrip(fields, rest);
  }

  lemma {:induction false} ElementsRoundTrip(items: seq<Json>, rest: string)
    requires |items| > 0 && ItemsWellFormed(items)
    ensures ParseElements(Elements(items) + "]" + rest) == Some((items, rest))
    decreases items, 0
  {
    var v := items[0];
    var s := Elements(items) + "]" + rest;
    if |items| == 1 {
      var after := "]" + rest;
      ConcatAssoc(Stringify(v), "]", rest);
      ValueRoundTrip(v, after);
      ParseElementsLast(s, v, after);
      assert after[1..] == rest;
      assert items == [v];
    } else {
      var after := "," + Elements(items[1..]) + "]" + rest;
      ConcatShift(Stringify(v), ",", Elements(items[1..]), "]", rest);
      assert "," + (Elements(items[1..]) + "]" + rest) == after;
      ValueRoundTrip(v, after);
      assert after[1..] == Elements(items[1..]) + "]" + rest;
      ElementsRoundTrip(items[1..], rest);
      ParseElementsMore(s, v, after, items[1..], rest);
      assert [v] + items[1..] == items;
    }
  }

  /** `ParseElements` on the last element, once it has been read. */
  lemma ParseElementsLast(s: string, v: Json, rest: string)
    requires ParseValue(s) == Some((v, rest))
    requires rest != [] && rest[0] == ']'
    ensures ParseElements(s) == Some(([v], rest[1..]))
  {
  }

  /** `ParseElements` on an element followed by more elements. */
  lemma ParseElementsMore(s: string, v: Json, rest: string, vs: seq<Json>, rest': string)
    requires ParseValue(s) == Some((v, rest))
    requires rest != [] && rest[0] == ','
    requires ParseElements(rest[1..]) == Some((vs, rest'))
    ensures ParseElements(s) == Some(([v] + vs, rest'))
  {
  }

  /** `ParseMembers` on the last member, once its key and value have been read. */
  lemma ParseMembersLast(s: string, k: string, afterKey: string, v: Json, rest: string)
    requires s != [] && s[0] == '"'
    requires ParseStringBody(s[1..]) == Some((k, afterKey))
    requires afterKey != [] && afterKey[0] == ':'
    requires ParseValue(afterKey[1..]) == Some((v, rest))
    requires rest != [] && rest[0] == '}'
    ensures ParseMembers(s) == Some(([Field(k, v)], rest[1..]))
  {
  }

  /** `ParseMembers` on a member followed by more members. */
  lemma ParseMembersMore(s: string, k: string, afterKey: string, v: Json, rest: string,
                         fs: seq<Field>, rest': string)
    requires s != [] && s[0] == '"'
    requires ParseStringBody(s[1..]) == Some((k, afterKey))
    requires afterKey != [] && afterKey[0] == ':'
    requires ParseValue(afterKey[1..]) == Some((v, rest))
    requires rest != [] && rest[0] == ','
    requires ParseMembers(rest[1..]) == Some((fs, rest'))
    ensures ParseMembers(s) == Some(([Field(k, v)] + fs, rest'))
  {
  }

  /** Reading one member `"key":value` followed by `after`. */
  lemma MemberRoundTrip(f: Field, after: string)
    requires WellFormed(f.val)
    requires after != [] && !IsDigit(after[0])
    ensures (Member(f) + after)[0] == '"'
    ensures ParseStringBody((Member(f) + after)[1..]) == Some((f.key, ":" + Stringify(f.val) + after))
    ensures (":" + Stringify(f.val) + after)[0] == ':'
    ensures ParseValue((":" + Stringify(f.val) + after)[1..]) == Some((f.val, after))
    decreases f, 0
  {
    var afterKey := ":" + Stringify(f.val) + after;
    MemberText(f, after);
    EscapeRoundTrip(f.key, afterKey);
    assert afterKey[1..] == Stringify(f.val) + after;
    ValueRoundTrip(f.val, after);
  }

  lemma MemberText(f: Field, after: string)
    ensures (Member(f) + after)[0] == '"'
    ensures (Member(f) + after)[1..] == Escape(f.key) + "\"" + (":" + Stringify(f.val) + after)
  {
    var e := Escape(f.key);
    var v := Stringify(f.val);
    assert Member(f) + after == "\"" + (e + "\"" + (":" + v + after));
  }

  lemma {:induction false} MembersRoundTrip(fields: seq<Field>, rest: string)
    requires |fields| > 0 && FieldsWellFormed(fields)
    ensures ParseMembers(Members(fields) + "}" + rest) == Some((fields, rest))
    decreases fields, 1
  {
    if |fields| == 1 {
      var f := fields[0];
      var after := "}" + rest;
      MembersText(fields, rest);
      ParseMemberThen(f, after);
      assert after[1..] == rest;
      assert fields == [f];
    } else {
      MembersRoundTripMore(fields, rest);
    }
  }

  lemma {:induction false} MembersRoundTripMore(fields: seq<Field>, rest: string)
    requires |fields| > 1 && FieldsWellFormed(fields)
    ensures ParseMembers(Members(fields) + "}" + rest) == Some((fields, rest))
    decreases fields, 0
  {
    var f := fields[0];
    var tail := Members(fields[1..]) + "}" + rest;
    var after := "," + tail;
    MembersText(fields, rest);
    assert after[1..] == tail;
    MembersRoundTrip(fields[1..], rest);
    ParseMemberThen(f, after);
    assert [f] + fields[1..] == fields;
  }

  lemma MembersText(fields: seq<Field>, rest: string)
    requires |fields| > 0
    ensures |fields| == 1 ==> Members(fields) + "}" + rest == Member(fields[0]) + ("}" + rest)
    ensures |fields| > 1 ==>
      Members(fields) + "}" + rest == Member(fields[0]) + ("," + (Members(fields[1..]) + "}" + rest))
  {
    if |fields| == 1 {
      ConcatAssoc(Member(fields[0]), "}", rest);
    } else {
      ConcatShift(Member(fields[0]), ",", Members(fields[1..]), "}", rest);
    }
  }


  /** Reading a member followed by the closing brace or by a comma and more members. */
  lemma ParseMemberThen(f: Field, after: string)
    requires WellFormed(f.val)
    requires after != [] && !IsDigit(after[0])
    ensures after[0] == '}' ==> ParseMembers(Member(f) + after) == Some(([f], after[1..]))
    ensures after[0] == ',' && ParseMembers(after[1..]).Some? ==>
      ParseMembers(Member(f) + after) == Some(([f] + ParseMembers(after[1..]).value.0, ParseMembers(after[1..]).value.1))
    decreases f, 1
  {
    MemberRoundTrip(f, after);
    var s := Member(f) + after;
    var afterKey := ":" + Stringify(f.val) + after;
    if after[0] == '}' {
      ParseMembersLast(s, f.key, afterKey, f.val, after);
    } else if after[0] == ',' && ParseMembers(after[1..]).Some? {
      var r := ParseMembers(after[1..]).value;
      ParseMembersMore(s, f.key, afterKey, f.val, after, r.0, r.1);
    }
  }

  /** `JSON.parse(JSON.stringify(v))` gives back `v`, for every value whose objects have
      distinct keys, which is every JavaScript value. */
  lemma ParseStringify(v: Json)
    requires WellFormed(v)
    ensures Parse(Stringify(v)) == Some(v)
  {
    ValueRoundTrip(v, []);
    assert Stringify(v) + [] == Stringify(v);
  }

  /** The text `JSON.stringify(undefined)` turns into when concatenated to a string is not JSON. */
  lemma ParseUndefinedText()
    ensures Parse("undefined") == None
  {
    assert !StartsWith("undefined", "null");
    assert DigitRun("undefined") == 0;
  }

  // ---------------------------------------------------------------------------
  // What parsing gives

  /** Every value `JSON.parse` gives is a JavaScript value: its objects have distinct
      keys. */
  lemma ParseWellFormed(s: string)
    ensures Parse(s).Some? ==> WellFormed(Parse(s).value)
  {
    ValueParsedWellFormed(s);
  }

  lemma {:induction false} ValueParsedWellFormed(s: string)
    ensures ParseValue(s).Some? ==> WellFormed(ParseValue(s).value.0)
    decreases |s|, 2
  {
    if s != [] && s[0] == '[' && !(|s| >= 2 && s[1] == ']') {
      ElementsParsedWellFormed(s[1..]);
    } else if s != [] && s[0] == '{' && !(|s| >= 2 && s[1] == '}') {
      MembersParsedWellFormed(s[1..]);
      if ParseMembers(s[1..]).Some? {
        SpreadWellFormed([], ParseMembers(s[1..]).value.0);
      }
    }
  }

  lemma {:induction false} ElementsParsedWellFormed(s: string)
    ensures ParseElements(s).Some? ==> ItemsWellFormed(ParseElements(s).value.0)
    decreases |s|, 3
  {
    ValueParsedWellFormed(s);
    match ParseValue(s)
    case None =>
    case Some((v, rest)) =>
      if rest != [] && rest[0] == ',' {
        ElementsParsedWellFormed(rest[1..]);
      }
  }

  lemma {:induction false} MembersParsedWellFormed(s: string)
    ensures ParseMembers(s).Some? ==> FieldsWellFormed(ParseMembers(s).value.0)
    decreases |s|, 3
  {
    if s != [] && s[0] == '"' {
      match ParseStringBody(s[1..])
      case None =>
      case Some((k, afterKey)) =>
        if afterKey != [] && afterKey[0] == ':' {
          ValueParsedWellFormed(afterKey[1..]);
          match ParseValue(afterKey[1..])
          case None =>
          case Some((v, rest)) =>
            if rest != [] && rest[0] == ',' {
              MembersParsedWellFormed(rest[1..]);
            }
        }
    }
  }

  /** The text of an object, repeated keys or not, parses as its members assigned in
      order. */
  lemma ParseObjectText(fields: seq<Field>)
    requires |fields| > 0 && FieldsWellFormed(fields)
    ensures Parse(Stringify(JObj(fields))) == Some(JObj(Spread([], fields)))
  {
    var s := Stringify(JObj(fields));
    BracketText("{", Members(fields), "}", []);
    assert s + [] == s;
    MembersRoundTrip(fields, []);
    assert Members(fields)[0] == '"';
    ParseObjectOf(s, fields, []);
  }

  /** A repeated key: `JSON.parse('{"a":1,"a":2}')` has the one property `a`, whose
      value is 2. */
  lemma ParseRepeatedKey()
    ensures Parse("{\"a\":1,\"a\":2}") == Some(JObj([Field("a", JNum(2))]))
  {
    var fields := [Field("a", JNum(1)), Field("a", JNum(2))];
    RepeatedKeyText(fields);
    ParseObjectText(fields);
    RepeatedKeySpread(fields);
  }

  lemma RepeatedKeyText(fields: seq<Field>)
    requires fields == [Field("a", JNum(1)), Field("a", JNum(2))]
    ensures Stringify(JObj(fields)) == "{\"a\":1,\"a\":2}"
  {
    assert Member(fields[0]) == "\"a\":1" && Member(fields[1]) == "\"a\":2";
    assert Members(fields) == "\"a\":1" + "," + "\"a\":2";
  }

  lemma RepeatedKeySpread(fields: seq<Field>)
    requires fields == [Field("a", JNum(1)), Field("a", JNum(2))]
    ensures Spread([], fields) == [Field("a", JNum(2))]
  {
    var f0, f1 := fields[0], fields[1];
    assert Put([], f0) == [f0];
    assert FieldValue([f0], "a") == Some(JNum(1));
    assert Put([f0], f1) == [f1];
    assert Spread([f0], [f1]) == Spread(Put([f0], f1), []);
    assert Spread([], fields) == Spread(Put([], f0), [f1]);
  }
}
