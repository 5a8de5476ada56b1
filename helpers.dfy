/** The input sanitisers and format validators of `src/utils/helpers.js`.  Each regular
    expression is written out as the matching it performs: `replace` with the `g` flag
    scans left to right and drops every match, `test` with `^...$` matches the whole
    string, and the `i` flag folds ASCII letters only. */
module Helpers {
  import opened Wrappers
  import opened Text
  import opened Json
  import opened BrowserStorage
  import opened Sequences

  // ---------------------------------------------------------------------------
  // Character filters

  predicate IsSqlChar(c: char) {
    c == '\'' || c == '"' || c == ';' || c == '\\'
  }

  /** `sanitizeSQL`: deletes every `'`, `"`, `;` and `\`. */
  function SanitizeSql(s: string): (r: string)
    ensures IsSubsequence(r, s)
    ensures forall i :: 0 <= i < |r| ==> !IsSqlChar(r[i])
    ensures forall c :: !IsSqlChar(c) ==> multiset(r)[c] == multiset(s)[c]
  {
    FilterSpec(s, c => !IsSqlChar(c));
    Filter(s, c => !IsSqlChar(c))
  }

  predicate IsNumberChar(c: char) {
    IsDigit(c) || c == '.' || c == '-'
  }

  /** `sanitizeNumber`: keeps only digits, `.` and `-`. */
  function SanitizeNumber(s: string): (r: string)
    ensures IsSubsequence(r, s)
    ensures forall i :: 0 <= i < |r| ==> IsNumberChar(r[i])
    ensures forall c :: IsNumberChar(c) ==> multiset(r)[c] == multiset(s)[c]
  {
    FilterSpec(s, IsNumberChar);
    Filter(s, IsNumberChar)
  }

  lemma SanitizeNumberIdempotent(s: string)
    ensures SanitizeNumber(SanitizeNumber(s)) == SanitizeNumber(s)
  {
    FilterIdempotent(s, IsNumberChar);
  }

  // ---------------------------------------------------------------------------
  // sanitizeString

  predicate IsMarkupChar(c: char) {
    c == '<' || c == '>' || c == '"' || c == '\'' || c == '`'
  }

  /** `s` starts with the lower-case text `pat`, ASCII letters compared without case. */
  predicate FoldedPrefix(s: string, pat: string) {
    |pat| <= |s| && forall j :: 0 <= j < |pat| ==> LowerChar(s[j]) == pat[j]
  }

  const Protocol: string := "javascript:"

  /** `.replace(/javascript:/gi, '')`: one left-to-right pass that drops each match. */
  function RemoveProtocol(s: string): (r: string)
    ensures |r| <= |s| && multiset(r) <= multiset(s)
    decreases |s|
  {
    if s == [] then []
    else if FoldedPrefix(s, Protocol) then
      assert s == s[..|Protocol|] + s[|Protocol|..];
      RemoveProtocol(s[|Protocol|..])
    else
      assert s == [s[0]] + s[1..];
      [s[0]] + RemoveProtocol(s[1..])
  }

  /** The characters of `\w`. */
  predicate IsWordChar(c: char) {
    ('A' <= c <= 'Z') || ('a' <= c <= 'z') || IsDigit(c) || c == '_'
  }

  /** The length of the longest run of word characters at the start of `s`. */
  function WordRun(s: string): (n: nat)
    ensures n <= |s| && (forall j :: 0 <= j < n ==> IsWordChar(s[j])) && (n < |s| ==> !IsWordChar(s[n]))
  {
    if s != [] && IsWordChar(s[0]) then 1 + WordRun(s[1..]) else 0
  }

  /** `s[..n]` has the form `/on\w+=/i`. */
  predicate HandlerShape(s: string, n: nat) {
    4 <= n <= |s| && LowerChar(s[0]) == 'o' && LowerChar(s[1]) == 'n' && s[n - 1] == '='
    && forall j :: 2 <= j < n - 1 ==> IsWordChar(s[j])
  }

  /** The length of the match of `/on\w+=/i` at the start of `s`; 0 when there is none. */
  function HandlerMatch(s: string): (n: nat)
    ensures n <= |s|
    ensures n > 0 ==> HandlerShape(s, n)
  {
    if |s| >= 2 && LowerChar(s[0]) == 'o' && LowerChar(s[1]) == 'n' then
      var k := WordRun(s[2..]);
      if k >= 1 && 2 + k < |s| && s[2 + k] == '=' then 3 + k else 0
    else 0
  }

  /** The match is the only one: `\w` never holds of `=`, so the regular expression
      cannot end anywhere else. */
  lemma HandlerMatchUnique(s: string, n: nat)
    requires HandlerShape(s, n)
    ensures HandlerMatch(s) == n
  {
    assert !IsWordChar(s[n - 1]);
  }

  /** `.replace(/on\w+=/gi, '')`. */
  function RemoveHandlers(s: string): (r: string)
    ensures |r| <= |s| && multiset(r) <= multiset(s)
    decreases |s|
  {
    if s == [] then []
    else
      var n := HandlerMatch(s);
      if n > 0 then
        assert s == s[..n] + s[n..];
        RemoveHandlers(s[n..])
      else
        assert s == [s[0]] + s[1..];
        [s[0]] + RemoveHandlers(s[1..])
  }

  /** A match of `/javascript:/i` is dropped, whatever the case of its letters. */
  lemma {:induction false} ProtocolDropped(p: string, t: string)
    requires |p| == |Protocol| && forall j :: 0 <= j < |p| ==> LowerChar(p[j]) == Protocol[j]
    ensures RemoveProtocol(p + t) == RemoveProtocol(t)
  {
    var s := p + t;
    assert forall j :: 0 <= j < |Protocol| ==> LowerChar(s[j]) == Protocol[j] by {
      forall j | 0 <= j < |Protocol| ensures LowerChar(s[j]) == Protocol[j] {
        assert s[j] == p[j];
      }
    }
    assert s[|Protocol|..] == t;
  }

  /** Where no match starts, the pass keeps the first character. */
  lemma {:induction false} ProtocolStep(s: string)
    requires s != [] && !FoldedPrefix(s, Protocol)
    ensures RemoveProtocol(s) == [s[0]] + RemoveProtocol(s[1..])
  {
  }

  /** Text in which no match starts is kept as it is, in front of what the pass makes
      of the rest; a match may run on past `k`. */
  lemma {:induction false} ProtocolKeptPrefix(p: string, t: string)
    requires forall i {:trigger FoldedPrefix((p + t)[i..], Protocol)} :: 0 <= i < |p| ==> !FoldedPrefix((p + t)[i..], Protocol)
    ensures RemoveProtocol(p + t) == p + RemoveProtocol(t)
    decreases |p|
  {
    if p == [] {
      assert p + t == t;
    } else {
      ProtocolKeptShift(p, t);
      ProtocolKeptPrefix(p[1..], t);
      ProtocolKeptCons(p, t);
    }
  }

  lemma {:induction false} ProtocolKeptShift(p: string, t: string)
    requires p != []
    requires forall i {:trigger FoldedPrefix((p + t)[i..], Protocol)} :: 0 <= i < |p| ==> !FoldedPrefix((p + t)[i..], Protocol)
    ensures !FoldedPrefix(p + t, Protocol)
    ensures forall i {:trigger FoldedPrefix((p[1..] + t)[i..], Protocol)} :: 0 <= i < |p| - 1 ==> !FoldedPrefix((p[1..] + t)[i..], Protocol)
  {
    assert (p + t)[0..] == p + t;
    forall i | 0 <= i < |p| - 1
      ensures !FoldedPrefix((p[1..] + t)[i..], Protocol)
    {
      assert (p[1..] + t)[i..] == (p + t)[i + 1..];
    }
  }

  lemma {:induction false} ProtocolKeptCons(p: string, t: string)
    requires p != [] && !FoldedPrefix(p + t, Protocol)
    requires RemoveProtocol(p[1..] + t) == p[1..] + RemoveProtocol(t)
    ensures RemoveProtocol(p + t) == p + RemoveProtocol(t)
  {
    var s := p + t;
    ProtocolStep(s);
    ConcatTail(p, t);
    ConsAppend(p, RemoveProtocol(t));
  }

  /** The pass does not look again at what it leaves: a match cut in two around
      another one, as in `"java" + "javascript:" + "script:"`, is what remains. */
  lemma {:induction false} ProtocolSinglePass(a: string, b: string)
    requires a != [] && b != [] && a + b == Protocol
    ensures RemoveProtocol(a + Protocol + b) == Protocol
  {
    AppendAssoc(a, Protocol, b);
    ProtocolSplitHead(a, Protocol + b);
    ProtocolLowerCase();
    ProtocolDropped(Protocol, b);
    ProtocolShortKept(b);
  }

  /** The pattern is written in lower case, and only its last character is `:`. */
  lemma ProtocolLowerCase()
    ensures forall j :: 0 <= j < |Protocol| ==> LowerChar(Protocol[j]) == Protocol[j]
    ensures forall j :: 0 <= j < |Protocol| - 1 ==> Protocol[j] != ':'
  {
  }

  /** No match starts inside a proper prefix `a` of the pattern put in front of it:
      the `:` such a match needs would fall inside the second copy. */
  lemma {:induction false} ProtocolSplitHead(a: string, t: string)
    requires 0 < |a| < |Protocol| && |Protocol| <= |t| && t[..|Protocol|] == Protocol
    ensures RemoveProtocol(a + t) == a + RemoveProtocol(t)
  {
    ProtocolLowerCase();
    forall i | 0 <= i < |a|
      ensures !FoldedPrefix((a + t)[i..], Protocol)
    {
      var k := i + |Protocol| - 1 - |a|;
      assert 0 <= k < |Protocol| - 1;
      assert (a + t)[i..][|Protocol| - 1] == t[k] == Protocol[k];
    }
    ProtocolKeptPrefix(a, t);
  }

  /** Text shorter than the pattern is kept. */
  lemma {:induction false} ProtocolShortKept(s: string)
    requires |s| < |Protocol|
    ensures RemoveProtocol(s) == s
  {
    assert s + [] == s;
    ProtocolKeptPrefix(s, []);
  }

  /** A match of `/on\w+=/i` is dropped. */
  lemma {:induction false} HandlerDropped(p: string, t: string)
    requires HandlerShape(p, |p|)
    ensures RemoveHandlers(p + t) == RemoveHandlers(t)
  {
    var s := p + t;
    assert HandlerShape(s, |p|) by {
      assert forall j :: 0 <= j < |p| ==> s[j] == p[j];
    }
    HandlerMatchUnique(s, |p|);
    assert s[|p|..] == t;
  }

  /** Where no match starts, the pass keeps the first character. */
  lemma {:induction false} HandlersStep(s: string)
    requires s != [] && HandlerMatch(s) == 0
    ensures RemoveHandlers(s) == [s[0]] + RemoveHandlers(s[1..])
  {
  }

  /** Text in which no match starts is kept as it is, in front of what the pass makes
      of the rest. */
  lemma {:induction false} HandlersKeptPrefix(p: string, t: string)
    requires forall i {:trigger HandlerMatch((p + t)[i..])} :: 0 <= i < |p| ==> HandlerMatch((p + t)[i..]) == 0
    ensures RemoveHandlers(p + t) == p + RemoveHandlers(t)
    decreases |p|
  {
    if p == [] {
      assert p + t == t;
    } else {
      HandlersKeptShift(p, t);
      HandlersKeptPrefix(p[1..], t);
      HandlersKeptCons(p, t);
    }
  }

  lemma {:induction false} HandlersKeptShift(p: string, t: string)
    requires p != []
    requires forall i {:trigger HandlerMatch((p + t)[i..])} :: 0 <= i < |p| ==> HandlerMatch((p + t)[i..]) == 0
    ensures HandlerMatch(p + t) == 0
    ensures forall i {:trigger HandlerMatch((p[1..] + t)[i..])} :: 0 <= i < |p| - 1 ==> HandlerMatch((p[1..] + t)[i..]) == 0
  {
    assert (p + t)[0..] == p + t;
    forall i | 0 <= i < |p| - 1
      ensures HandlerMatch((p[1..] + t)[i..]) == 0
    {
      assert (p[1..] + t)[i..] == (p + t)[i + 1..];
    }
  }

  lemma {:induction false} HandlersKeptCons(p: string, t: string)
    requires p != [] && HandlerMatch(p + t) == 0
    requires RemoveHandlers(p[1..] + t) == p[1..] + RemoveHandlers(t)
    ensures RemoveHandlers(p + t) == p + RemoveHandlers(t)
  {
    var s := p + t;
    HandlersStep(s);
    ConcatTail(p, t);
    ConsAppend(p, RemoveHandlers(t));
  }

  /** Removing a match `a + b` found just after its own first letter `a`, as in
      `"o" + "onclick=" + "nclick="`, leaves `a + b`, a match again. */
  lemma {:induction false} HandlersSinglePass(a: string, b: string)
    requires |a| == 1 && HandlerShape(a + b, |a + b|)
    requires forall i :: 0 <= i < |b| ==> b[i] != 'o' && b[i] != 'O'
    ensures RemoveHandlers(a + (a + b) + b) == a + b
  {
    var m := a + b;
    AppendAssoc(a, m, b);
    assert (a + (m + b))[0..][1] == m[0] == a[0];
    HandlersKeptPrefix(a, m + b);
    HandlerDropped(m, b);
    HandlersNoO(b);
  }

  /** Text with no `o` in either case is kept. */
  lemma {:induction false} HandlersNoO(s: string)
    requires forall i :: 0 <= i < |s| ==> s[i] != 'o' && s[i] != 'O'
    ensures RemoveHandlers(s) == s
  {
    assert s + [] == s;
    forall i | 0 <= i < |s|
      ensures HandlerMatch((s + [])[i..]) == 0
    {
      assert (s + [])[i..][0] == s[i];
    }
    HandlersKeptPrefix(s, []);
  }

  /** Characters that survive a step that can only delete keep a property of all
      characters of its input. */
  lemma NoMarkupKept(a: string, b: string)
    requires multiset(b) <= multiset(a)
    requires forall i :: 0 <= i < |a| ==> !IsMarkupChar(a[i])
    ensures forall i :: 0 <= i < |b| ==> !IsMarkupChar(b[i])
  {
    forall i | 0 <= i < |b|
      ensures !IsMarkupChar(b[i])
    {
      assert b[i] in multiset(b);
      assert b[i] in a;
    }
  }

  /** The three `replace` calls of `sanitizeString`, before the `trim`. */
  function StripUnsafe(s: string): (r: string)
    ensures |r| <= |s|
    ensures forall i :: 0 <= i < |r| ==> !IsMarkupChar(r[i])
  {
    var a := Filter(s, c => !IsMarkupChar(c));
    var b := RemoveProtocol(a);
    NoMarkupKept(a, b);
    var c := RemoveHandlers(b);
    NoMarkupKept(b, c);
    c
  }

  lemma TrimKeepsNoMarkup(c: string)
    requires forall i :: 0 <= i < |c| ==> !IsMarkupChar(c[i])
    ensures forall i :: 0 <= i < |Trim(c)| ==> !IsMarkupChar(Trim(c)[i])
  {
    var r := Trim(c);
    var k :| OccursAt(c, r, k);
    assert forall i :: 0 <= i < |r| ==> r[i] == c[k + i];
  }

  /** `sanitizeString` on a string. */
  function SanitizeString(s: string): (r: string)
    ensures |r| <= |s|
    ensures forall i :: 0 <= i < |r| ==> !IsMarkupChar(r[i])
    ensures r == [] || (!IsJsWhitespace(r[0]) && !IsJsWhitespace(r[|r| - 1]))
  {
    TrimKeepsNoMarkup(StripUnsafe(s));
    Trim(StripUnsafe(s))
  }

  /** Text that needs no sanitising: no markup character, and no match of either
      pattern at any position. */
  predicate Harmless(s: string) {
    && (forall i :: 0 <= i < |s| ==> !IsMarkupChar(s[i]))
    && (forall i {:trigger FoldedPrefix(s[i..], Protocol)} :: 0 <= i < |s| ==> !FoldedPrefix(s[i..], Protocol))
    && (forall i {:trigger HandlerMatch(s[i..])} :: 0 <= i < |s| ==> HandlerMatch(s[i..]) == 0)
  }

  /** The three replacements keep harmless text as it is. */
  lemma {:induction false} StripUnsafeKeeps(s: string)
    requires Harmless(s)
    ensures StripUnsafe(s) == s
  {
    FilterAll(s, c => !IsMarkupChar(c));
    assert s + [] == s;
    ProtocolKeptPrefix(s, []);
    HandlersKeptPrefix(s, []);
  }

  /** `sanitizeString` keeps harmless text with no white space at either end. */
  lemma {:induction false} SanitizeStringKeeps(s: string)
    requires Harmless(s)
    requires s == [] || (!IsJsWhitespace(s[0]) && !IsJsWhitespace(s[|s| - 1]))
    ensures SanitizeString(s) == s
  {
    StripUnsafeKeeps(s);
  }

  /** A run of word characters is harmless: the protocol pattern needs a `:` and the
      handler pattern a `=`. */
  lemma {:induction false} WordsHarmless(s: string)
    requires forall i :: 0 <= i < |s| ==> IsWordChar(s[i])
    ensures Harmless(s)
  {
    forall i | 0 <= i < |s|
      ensures !FoldedPrefix(s[i..], Protocol) && HandlerMatch(s[i..]) == 0
    {
      var r := s[i..];
      assert forall j :: 0 <= j < |r| ==> IsWordChar(r[j]);
      assert Protocol[10] == ':';
    }
  }

  /** `sanitizeString(input)`: only a string is changed. */
  function SanitizeInput(v: JsValue): (r: JsValue)
    ensures !(v.Plain? && v.json.JStr?) ==> r == v
    ensures v.Plain? && v.json.JStr? ==> r == Plain(JStr(SanitizeString(v.json.s)))
  {
    if v.Plain? && v.json.JStr? then Plain(JStr(SanitizeString(v.json.s))) else v
  }

  // ---------------------------------------------------------------------------
  // isValidEmail: /^[^\s@]+@[^\s@]+\.[^\s@]+$/

  /** A non-empty run of `[^\s@]`. */
  predicate EmailPart(p: string) {
    |p| >= 1 && forall k :: 0 <= k < |p| ==> !IsJsWhitespace(p[k]) && p[k] != '@'
  }

  /** The regular expression matches with its `@` at `at` and the `.` it needs at `dot`. */
  predicate EmailSplit(s: string, at: int, dot: int) {
    0 <= at < dot < |s| && EmailPart(s[..at]) && s[at] == '@'
    && EmailPart(s[at + 1..dot]) && s[dot] == '.' && EmailPart(s[dot + 1..])
  }

  predicate IsValidEmail(s: string) {
    exists at, dot | 0 <= at < dot < |s| :: EmailSplit(s, at, dot)
  }

  predicate HasInteriorDot(d: string) {
    exists j | 0 < j < |d| - 1 :: d[j] == '.'
  }

  /** The rules the email pattern enforces, stated without it: no white space, exactly
      one `@`, something before it, and a `.` inside the part after it. */
  predicate EmailRules(s: string) {
    (forall k :: 0 <= k < |s| ==> !IsJsWhitespace(s[k]))
    && multiset(s)['@'] == 1
    && exists at | 0 < at < |s| :: s[at] == '@' && HasInteriorDot(s[at + 1..])
  }

  lemma NoAtCount(p: string)
    requires forall k :: 0 <= k < |p| ==> p[k] != '@'
    ensures multiset(p)['@'] == 0
  {
  }

  lemma TwoAts(s: string, i: int, j: int)
    requires 0 <= i < j < |s| && s[i] == '@' && s[j] == '@'
    ensures multiset(s)['@'] >= 2
  {
    assert s == s[..j] + s[j..];
    assert s[..j][i] == '@';
    assert '@' in multiset(s[..j]);
    assert s[j..][0] == '@';
    assert '@' in multiset(s[j..]);
  }

  lemma EmailSplitRules(s: string, at: int, dot: int)
    requires EmailSplit(s, at, dot)
    ensures EmailRules(s)
  {
    var a, b, c := s[..at], s[at + 1..dot], s[dot + 1..];
    assert s == a + [s[at]] + b + [s[dot]] + c;
    forall k | 0 <= k < |s|
      ensures !IsJsWhitespace(s[k]) && (k != at ==> s[k] != '@')
    {
      if k < at { assert s[k] == a[k]; }
      else if at < k < dot { assert s[k] == b[k - at - 1]; }
      else if k > dot { assert s[k] == c[k - dot - 1]; }
    }
    NoAtCount(a);
    NoAtCount(b + [s[dot]] + c);
    assert s == a + [s[at]] + (b + [s[dot]] + c);
    var d := s[at + 1..];
    assert d[dot - at - 1] == '.';
  }

  lemma EmailRulesSplit(s: string)
    requires EmailRules(s)
    ensures IsValidEmail(s)
  {
    var at :| 0 < at < |s| && s[at] == '@' && HasInteriorDot(s[at + 1..]);
    var d := s[at + 1..];
    var j :| 0 < j < |d| - 1 && d[j] == '.';
    var dot := at + 1 + j;
    forall k | 0 <= k < |s| && k != at
      ensures s[k] != '@'
    {
      if s[k] == '@' {
        if k < at { TwoAts(s, k, at); } else { TwoAts(s, at, k); }
      }
    }
    assert EmailPart(s[..at]);
    assert EmailPart(s[at + 1..dot]);
    assert EmailPart(s[dot + 1..]);
    assert EmailSplit(s, at, dot);
  }

  /** `isValidEmail(s)` holds exactly when the rules hold. */
  lemma EmailCharacterisation(s: string)
    ensures IsValidEmail(s) <==> EmailRules(s)
  {
    if IsValidEmail(s) {
      var at, dot :| 0 <= at < dot < |s| && EmailSplit(s, at, dot);
      EmailSplitRules(s, at, dot);
    }
    if EmailRules(s) {
      EmailRulesSplit(s);
    }
  }

  // ---------------------------------------------------------------------------
  // isValidPhone: /^[\d\s\-+()]{10,}$/

  predicate IsPhoneChar(c: char) {
    IsDigit(c) || IsJsWhitespace(c) || c == '-' || c == '+' || c == '(' || c == ')'
  }

  /** `s` matches `[\d\s\-+()]{min,}` as a whole, one character at a time. */
  predicate PhoneRun(s: string, min: nat)
    decreases |s|
  {
    if s == [] then min == 0
    else IsPhoneChar(s[0]) && PhoneRun(s[1..], if min == 0 then 0 else min - 1)
  }

  predicate IsValidPhone(s: string) {
    PhoneRun(s, 10)
  }

  lemma {:induction false} PhoneRunCharacterisation(s: string, min: nat)
    ensures PhoneRun(s, min) <==> |s| >= min && forall k :: 0 <= k < |s| ==> IsPhoneChar(s[k])
    decreases |s|
  {
    if s != [] {
      PhoneRunCharacterisation(s[1..], if min == 0 then 0 else min - 1);
      assert forall k :: 1 <= k < |s| ==> s[k] == s[1..][k - 1];
    }
  }

  /** `isValidPhone(s)` holds exactly when `s` has at least ten characters, each a
      digit, white space, `-`, `+`, `(` or `)`. */
  lemma PhoneCharacterisation(s: string)
    ensures IsValidPhone(s) <==> |s| >= 10 && forall k :: 0 <= k < |s| ==> IsPhoneChar(s[k])
  {
    PhoneRunCharacterisation(s, 10);
  }

  // ---------------------------------------------------------------------------
  // isValidUUID: /^[0-9a-f]{8}-[0-9a-f]{4}-[0-9a-f]{4}-[0-9a-f]{4}-[0-9a-f]{12}$/i

  predicate IsHexChar(c: char) {
    IsDigit(c) || ('a' <= c <= 'f') || ('A' <= c <= 'F')
  }

  predicate AllHex(s: string) {
    forall k :: 0 <= k < |s| ==> IsHexChar(s[k])
  }

  /** `s` is runs of hexadecimal digits of the lengths in `groups`, joined by `-`. */
  predicate HexGroups(s: string, groups: seq<nat>)
    requires |groups| >= 1
    decreases |groups|
  {
    if |groups| == 1 then |s| == groups[0] && AllHex(s)
    else
      |s| > groups[0] && AllHex(s[..groups[0]]) && s[groups[0]] == '-'
      && HexGroups(s[groups[0] + 1..], groups[1..])
  }

  predicate IsValidUuid(s: string) {
    HexGroups(s, [8, 4, 4, 4, 12])
  }

  predicate IsUuidHyphen(k: int) {
    k == 8 || k == 13 || k == 18 || k == 23
  }

  /** The layout `isValidUUID` accepts, by position. */
  predicate UuidLayout(s: string) {
    |s| == 36 && forall k :: 0 <= k < 36 ==> if IsUuidHyphen(k) then s[k] == '-' else IsHexChar(s[k])
  }

  /** One group and its hyphen in front of the remaining groups. */
  lemma HexGroupsStep(s: string, g: nat, rest: seq<nat>)
    requires |rest| >= 1
    ensures HexGroups(s, [g] + rest) <==>
      |s| > g && AllHex(s[..g]) && s[g] == '-' && HexGroups(s[g + 1..], rest)
  {
    assert ([g] + rest)[1..] == rest;
  }

  lemma HexGroupsLast(s: string, g: nat)
    ensures HexGroups(s, [g]) <==> |s| == g && AllHex(s)
  {
  }

  /** The length of text the groups take up, hyphens included. */
  function GroupsLength(groups: seq<nat>): nat
    requires |groups| >= 1
    decreases |groups|
  {
    if |groups| == 1 then groups[0] else groups[0] + 1 + GroupsLength(groups[1..])
  }

  lemma {:induction false} HexGroupsLength(s: string, groups: seq<nat>)
    requires |groups| >= 1 && HexGroups(s, groups)
    ensures |s| == GroupsLength(groups)
    decreases |groups|
  {
    if |groups| > 1 {
      HexGroupsLength(s[groups[0] + 1..], groups[1..]);
    }
  }

  lemma AllHexSlice(s: string, a: nat, b: nat)
    requires a <= b <= |s|
    ensures AllHex(s[a..b]) <==> forall k :: a <= k < b ==> IsHexChar(s[k])
  {
    assert forall k :: a <= k < b ==> s[a..b][k - a] == s[k];
  }

  /** `isValidUUID(s)` holds exactly when `s` has 36 characters, hyphens at 8, 13, 18
      and 23, and hexadecimal digits of either case everywhere else. */
  lemma UuidCharacterisation(s: string)
    ensures IsValidUuid(s) <==> UuidLayout(s)
  {
    if |s| == 36 {
      var s1, s2, s3, s4 := s[9..], s[14..], s[19..], s[24..];
      HexGroupsStep(s, 8, [4, 4, 4, 12]);
      assert s1[5..] == s2 && s2[5..] == s3 && s3[5..] == s4;
      HexGroupsStep(s1, 4, [4, 4, 12]);
      HexGroupsStep(s2, 4, [4, 12]);
      HexGroupsStep(s3, 4, [12]);
      HexGroupsLast(s4, 12);
      assert s[..8] == s[0..8] && s1[..4] == s[9..13] && s2[..4] == s[14..18] && s3[..4] == s[19..23] && s4 == s[24..36];
      AllHexSlice(s, 0, 8);
      AllHexSlice(s, 9, 13);
      AllHexSlice(s, 14, 18);
      AllHexSlice(s, 19, 23);
      AllHexSlice(s, 24, 36);
    } else if IsValidUuid(s) {
      HexGroupsLength(s, [8, 4, 4, 4, 12]);
    }
  }

  // ---------------------------------------------------------------------------
  // formatRelativeTime, with the current time as a parameter

  /** What `formatRelativeTime` shows: a phrase, or the date in `formatDate`'s locale
      form, which is not part of this model. */
  datatype RelativeTime = Phrase(text: string) | AbsoluteDate

  /** "N unit ago", with an "s" on the unit when N is above 1. */
  function Counted(n: nat, unit: string): string {
    NatToString(n) + " " + unit + (if n > 1 then "s" else "") + " ago"
  }

  /** `formatRelativeTime(date)` at time `now`, both in milliseconds since the epoch;
      `past` is `None` when `new Date(date)` is invalid, whose NaN fails every test. */
  function FormatRelativeTime(now: int, past: Option<int>): (r: RelativeTime)
  {
    match past
    case None => AbsoluteDate
    case Some(p) =>
      var diffMs := now - p;
      var diffSecs := diffMs / 1000;
      var diffMins := diffSecs / 60;
      var diffHours := diffMins / 60;
      var diffDays := diffHours / 24;
      if diffSecs < 60 then Phrase("just now")
      else if diffMins < 60 then Phrase(Counted(diffMins, "minute"))
      else if diffHours < 24 then Phrase(Counted(diffHours, "hour"))
      else if diffDays < 7 then Phrase(Counted(diffDays, "day"))
      else AbsoluteDate
  }

  /** A quotient and remainder pin down the floored quotient. */
  lemma DivUnique(a: int, b: int, q: int, r: int)
    requires b > 0 && a == b * q + r && 0 <= r < b
    ensures a / b == q
  {
    var q', r' := a / b, a % b;
    var d := q - q';
    assert b * d == r' - r by {
      assert b * q == b * q' + b * d;
    }
    if d >= 1 {
      MulAtLeast(b, d);
    } else if d <= -1 {
      MulAtLeast(b, -d);
    }
  }

  lemma MulAtLeast(b: int, d: int)
    requires b > 0 && d >= 1
    ensures b * d >= b
  {
    assert b * d == b + b * (d - 1);
    assert b * (d - 1) >= 0;
  }

  /** Flooring twice is flooring once by the product (Dafny's `/` floors for a positive
      divisor, as `Math.floor` of the quotient does). */
  lemma FloorTwice(a: int, b: int, c: int)
    requires b > 0 && c > 0
    ensures (a / b) / c == a / (b * c)
  {
    var q, r := a / b, a % b;
    var q2, r2 := q / c, q % c;
    DivModOf(a, b);
    DivModOf(q, c);
    Distribute(b, c, q2, r2);
    MulBelow(b, r2, c);
    DivUnique(a, b * c, q2, b * r2 + r);
  }

  lemma DivModOf(a: int, b: int)
    requires b > 0
    ensures a == b * (a / b) + a % b && 0 <= a % b < b
  {
  }

  lemma Distribute(b: int, c: int, q: int, r: int)
    ensures b * (c * q + r) == (b * c) * q + b * r
  {
  }

  lemma MulBelow(b: int, r: int, c: int)
    requires b > 0 && 0 <= r < c
    ensures 0 <= b * r <= b * c - b
  {
    assert b * c - b * r == b * (c - r);
    MulAtLeast(b, c - r);
  }

  /** The thresholds in milliseconds, each count being a single floored quotient of
      the difference. */
  lemma RelativeTimeThresholds(now: int, p: int)
    ensures var d := now - p; var r := FormatRelativeTime(now, Some(p));
      (d < 60_000 ==> r == Phrase("just now"))
      && (60_000 <= d < 3_600_000 ==> 1 <= d / 60_000 < 60 && r == Phrase(Counted(d / 60_000, "minute")))
      && (3_600_000 <= d < 86_400_000 ==> 1 <= d / 3_600_000 < 24 && r == Phrase(Counted(d / 3_600_000, "hour")))
      && (86_400_000 <= d < 604_800_000 ==> 1 <= d / 86_400_000 < 7 && r == Phrase(Counted(d / 86_400_000, "day")))
      && (d >= 604_800_000 ==> r == AbsoluteDate)
  {
    var d := now - p;
    FloorTwice(d, 1000, 60);
    FloorTwice(d, 60_000, 60);
    FloorTwice(d, 3_600_000, 24);
  }

  /** Every phrase is "just now" or a count above zero of minutes, hours or days. */
  lemma RelativePhrases(now: int, past: Option<int>)
    ensures var r := FormatRelativeTime(now, past);
      r == AbsoluteDate || r == Phrase("just now")
      || exists n: nat, unit: string :: n >= 1 && unit in {"minute", "hour", "day"} && r == Phrase(Counted(n, unit))
  {
    if past.Some? {
      var d := now - past.value;
      var secs := d / 1000;
      var mins := secs / 60;
      var hours := mins / 60;
      var days := hours / 24;
      var r := FormatRelativeTime(now, past);
      if secs >= 60 && mins < 60 {
        assert r == Phrase(Counted(mins, "minute"));
      } else if mins >= 60 && hours < 24 {
        assert r == Phrase(Counted(hours, "hour"));
      } else if hours >= 24 && days < 7 {
        assert r == Phrase(Counted(days, "day"));
      }
    }
  }

  /** The unit is plural exactly when the count is above 1. */
  lemma CountedPlural(n: nat, unit: string)
    ensures var t := Counted(n, unit);
      (n > 1 ==> t == NatToString(n) + " " + unit + "s ago")
      && (n <= 1 ==> t == NatToString(n) + " " + unit + " ago")
  {
  }

  /** An invalid date always gives the date form. */
  lemma RelativeTimeInvalid(now: int)
    ensures FormatRelativeTime(now, None) == AbsoluteDate
  {
  }

  // ---------------------------------------------------------------------------
  // The `storage` wrapper around localStorage

  /** What `storage.get(key, defaultValue)` returns over the contents `items`. */
  function StoredValue(items: map<string, string>, key: string, default: Json): (r: Json)
    ensures (key !in items || items[key] == "") ==> r == default
    ensures key in items && Parse(items[key]).None? ==> r == default
  {
    if key !in items || items[key] == "" then default
    else Parse(items[key]).GetOr(default)
  }

  /** The text `localStorage.setItem(key, JSON.stringify(value))` stores: `setItem`
      turns an `undefined` into the text "undefined". */
  function StoredText(r: StringifyResult): string
    requires !r.Throws?
  {
    if r.Text? then r.text else "undefined"
  }

  class SafeStorage {
    const store: LocalStorage

    constructor(store: LocalStorage)
      ensures this.store == store
    {
      this.store := store;
    }

    /** `storage.get`: the default also when `getItem` throws. */
    method Get(key: string, default: Json) returns (r: Json)
      ensures r == if store.available then StoredValue(store.items, key, default) else default
    {
      var ok, item := store.GetItem(key);
      if !ok || item.None? || item.value == "" {
        r := default;
      } else {
        r := Parse(item.value).GetOr(default);
      }
    }

    /** `storage.set`: `false`, leaving the store as it was, when `JSON.stringify` or
        `setItem` throws. */
    method Set(key: string, value: JsValue) returns (ok: bool)
      modifies store
      ensures ok <==>
        !value.Unserialisable? && store.Accepts(old(store.items)[key := StoredText(StringifyJs(value))])
      ensures store.items ==
        if ok then old(store.items)[key := StoredText(StringifyJs(value))] else old(store.items)
    {
      var json := StringifyJs(value);
      if json.Throws? {
        ok := false;
      } else {
        ok := store.SetItem(key, StoredText(json));
      }
    }

    /** `storage.remove`: `false`, leaving the store as it was, when `removeItem` throws. */
    method Remove(key: string) returns (ok: bool)
      modifies store
      ensures ok <==> store.available
      ensures store.items == if ok then old(store.items) - {key} else old(store.items)
    {
      ok := store.RemoveItem(key);
    }

    /** `storage.clear` empties the whole store, not only the application's keys, and
        gives `false`, leaving the store, when `clear` throws. */
    method Clear() returns (ok: bool)
      modifies store
      ensures ok <==> store.available
      ensures store.items == if ok then map[] else old(store.items)
    {
      ok := store.Clear();
    }
  }

  /** `storage.get` right after `storage.set(key, v)` gives `v` back. */
  lemma StoredValueAfterSet(items: map<string, string>, key: string, j: Json, default: Json)
    requires WellFormed(j)
    ensures StoredValue(items[key := StoredText(StringifyJs(Plain(j)))], key, default) == j
  {
    ParseStringify(j);
  }

  /** After `storage.set(key, undefined)` the stored text does not parse, so `get`
      gives the default. */
  lemma StoredValueAfterSetUndefined(items: map<string, string>, key: string, default: Json)
    ensures StoredValue(items[key := StoredText(StringifyJs(Undefined))], key, default) == default
  {
    ParseUndefinedText();
  }
}
