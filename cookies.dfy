/**
 * The cookie extractor of helpers/cookies.js.
 *
 * Given a cookie name and a raw `Cookie` header, the source builds the regular expression
 * `(?:^|;)\s?NAME=(.*?)(?:;|$)` (flag `i`) from the name with its metacharacters escaped,
 * takes the leftmost match and returns the captured value passed through `unescape`, or
 * `null` when nothing matches. This module replaces the regular expression by a scanner
 * that tries the pattern at every index in turn, its alternatives in the order the
 * JavaScript engine tries them.
 */
module Cookies {
  import opened Wrappers

  // ---------------------------------------------------------------------------
  // Characters
  // ---------------------------------------------------------------------------

  /** JavaScript's line terminators: the characters `.` does not match. */
  predicate IsLineTerminator(c: char) {
    c == '\n' || c == '\r' || c == '\U{2028}' || c == '\U{2029}'
  }

  /** The characters JavaScript's `\s` matches: white space and line terminators. */
  predicate IsSpace(c: char) {
    c == '\t' || c == '\U{000B}' || c == '\U{000C}' || c == ' ' || c == '\U{00A0}' ||
    c == '\U{1680}' || ('\U{2000}' <= c <= '\U{200A}') || c == '\U{202F}' ||
    c == '\U{205F}' || c == '\U{3000}' || c == '\U{FEFF}' || IsLineTerminator(c)
  }

  /** Case folding as the `i` flag applies it to ASCII letters. */
  function Fold(c: char): char {
    if 'A' <= c <= 'Z' then (c as int - 'A' as int + 'a' as int) as char else c
  }

  /** `a` and `b` are equal once ASCII case is ignored. */
  predicate EqualsIgnoringCase(a: string, b: string) {
    |a| == |b| && forall k :: 0 <= k < |a| ==> Fold(a[k]) == Fold(b[k])
  }

  // ---------------------------------------------------------------------------
  // Escaping the name (line 2)
  // ---------------------------------------------------------------------------

  /** The characters the source puts a backslash in front of. */
  predicate IsEscaped(c: char) {
    c in ".*+?^=!:${}()|[]/\\"
  }

  /** ECMAScript's SyntaxCharacter set: outside an escape these do not stand for themselves. */
  predicate IsSyntaxChar(c: char) {
    c in "^$\\.*+?()[]{}|"
  }

  /** `name.replace(/([.*+?^=!:${}()|[\]\/\\])/g, '\\$1')`. */
  function EscapeRegex(name: string): (p: string)
    ensures |name| <= |p| <= 2 * |name|
  {
    if name == [] then []
    else (if IsEscaped(name[0]) then ['\\', name[0]] else [name[0]]) + EscapeRegex(name[1..])
  }

  function Prepend(c: char, o: Option<string>): Option<string> {
    match o
    case None => None
    case Some(t) => Some([c] + t)
  }

  /**
   * The text matched by a pattern built only from plain characters and identity escapes
   * (`\` followed by one of the escaped characters), read one atom at a time; None when the
   * pattern holds any other construct.
   */
  function PatternLiteral(p: string): Option<string>
    decreases |p|
  {
    if p == [] then Some([])
    else if p[0] == '\\' then
      if |p| >= 2 && IsEscaped(p[1]) then Prepend(p[1], PatternLiteral(p[2..])) else None
    else if IsSyntaxChar(p[0]) then None
    else Prepend(p[0], PatternLiteral(p[1..]))
  }

  /** After escaping, the name stands in the pattern for exactly its own characters. */
  lemma {:induction false} EscapedNameIsLiteral(name: string)
    ensures PatternLiteral(EscapeRegex(name)) == Some(name)
  {
    if name != [] {
      var c, rest := name[0], name[1..];
      var tail := EscapeRegex(rest);
      EscapedNameIsLiteral(rest);
      if IsEscaped(c) {
        assert EscapeRegex(name) == ['\\', c] + tail;
        assert (['\\', c] + tail)[2..] == tail;
      } else {
        assert EscapeRegex(name) == [c] + tail;
        assert ([c] + tail)[1..] == tail;
      }
      assert [c] + rest == name;
    }
  }

  // ---------------------------------------------------------------------------
  // The match (lines 4-5)
  // ---------------------------------------------------------------------------

  /** `NAME=` starts at index `q` of `s`, the name compared ignoring ASCII case. */
  predicate NameAt(s: string, name: string, q: nat) {
    q + |name| < |s| && EqualsIgnoringCase(s[q..q + |name|], name) && s[q + |name|] == '='
  }

  /** Index `w` holds a `;` or is the end of `s`, and no line terminator lies between `v` and `w`. */
  predicate Completes(s: string, v: nat, w: nat) {
    v <= w <= |s| && (w == |s| || s[w] == ';') && forall k :: v <= k < w ==> !IsLineTerminator(s[k])
  }

  /** Some `;` or the end of `s` comes after `v` with no line terminator before it. */
  ghost predicate ValueCompletes(s: string, v: nat) {
    exists w :: Completes(s, v, w)
  }

  /**
   * End of the lazy capture `(.*?)(?:;|$)` begun at `v`: the first index that holds a `;` or
   * is the end of `s`. None when a line terminator comes first, which `.` cannot consume.
   */
  function ValueEnd(s: string, v: nat): (e: Option<nat>)
    requires v <= |s|
    ensures e.Some? ==> v <= e.value <= |s| && (e.value == |s| || s[e.value] == ';')
    ensures e.Some? ==> forall k :: v <= k < e.value ==> s[k] != ';' && !IsLineTerminator(s[k])
    ensures (forall k :: v <= k < |s| ==> !IsLineTerminator(s[k])) ==> e.Some?
    ensures forall w :: Completes(s, v, w) ==> e.Some?
    decreases |s| - v
  {
    if v == |s| || s[v] == ';' then Some(v)
    else if IsLineTerminator(s[v]) then
      assert forall w :: !Completes(s, v, w);
      None
    else
      assert forall w :: Completes(s, v, w) ==> Completes(s, v + 1, w);
      ValueEnd(s, v + 1)
  }

  /** `NAME=(.*?)(?:;|$)` with the name at `q`: the raw capture. */
  function CaptureAt(s: string, name: string, q: nat): (m: Option<string>)
    ensures m.Some? ==> NameAt(s, name, q)
    // the capture is the text right after `NAME=`, up to the next `;` or the end
    ensures m.Some? ==> var v := q + |name| + 1;
      v + |m.value| <= |s| && m.value == s[v..v + |m.value|] && (v + |m.value| == |s| || s[v + |m.value|] == ';')
    ensures m.Some? ==> forall k :: 0 <= k < |m.value| ==> m.value[k] != ';' && !IsLineTerminator(m.value[k])
    ensures NameAt(s, name, q) && (forall k :: q + |name| + 1 <= k < |s| ==> !IsLineTerminator(s[k])) ==> m.Some?
    // conversely, `NAME=` followed by a value that completes is captured
    ensures NameAt(s, name, q) && ValueCompletes(s, q + |name| + 1) ==> m.Some?
  {
    if NameAt(s, name, q) then
      match ValueEnd(s, q + |name| + 1)
      case Some(e) => Some(s[q + |name| + 1..e])
      case None => None
    else None
  }

  /**
   * `\s?NAME=(.*?)(?:;|$)` from index `c`. The `?` is greedy, so the branch that consumes
   * one white-space character is tried before the one that consumes none.
   */
  function AfterAnchor(s: string, name: string, c: nat): (m: Option<string>)
    requires c <= |s|
    ensures c < |s| && IsSpace(s[c]) && CaptureAt(s, name, c + 1).Some? ==> m == CaptureAt(s, name, c + 1)
    ensures !(c < |s| && IsSpace(s[c]) && CaptureAt(s, name, c + 1).Some?) ==> m == CaptureAt(s, name, c)
  {
    var spaced := if c < |s| && IsSpace(s[c]) then CaptureAt(s, name, c + 1) else None;
    if spaced.Some? then spaced else CaptureAt(s, name, c)
  }

  /** The whole pattern tried at index `i`; `(?:^|;)` tries `^`, which holds only at 0, before `;`. */
  function MatchAt(s: string, name: string, i: nat): (m: Option<string>)
    requires i <= |s|
    // a match begins at the start of the header or at a separator
    ensures m.Some? ==> i == 0 || (i < |s| && s[i] == ';')
    // at index 0, `^` is tried before `;`
    ensures i == 0 && AfterAnchor(s, name, 0).Some? ==> m == AfterAnchor(s, name, 0)
    ensures m.Some? && !(i == 0 && AfterAnchor(s, name, 0).Some?) ==> i < |s| && s[i] == ';' && m == AfterAnchor(s, name, i + 1)
    // at a `;`, outside the preferred `^` case, the match after it is taken
    ensures i < |s| && s[i] == ';' && !(i == 0 && AfterAnchor(s, name, 0).Some?) ==> m == AfterAnchor(s, name, i + 1)
  {
    var atStart := if i == 0 then AfterAnchor(s, name, 0) else None;
    if atStart.Some? then atStart
    else if i < |s| && s[i] == ';' then AfterAnchor(s, name, i + 1)
    else None
  }

  /** The leftmost index at or after `from` where the pattern matches. */
  function FirstMatchFrom(s: string, name: string, from: nat): (r: Option<nat>)
    requires from <= |s|
    ensures r.Some? ==> from <= r.value <= |s| && MatchAt(s, name, r.value).Some?
    ensures forall i :: from <= i <= |s| && (r.None? || i < r.value) ==> MatchAt(s, name, i).None?
    decreases |s| - from
  {
    if MatchAt(s, name, from).Some? then Some(from)
    else if from == |s| then None
    else FirstMatchFrom(s, name, from + 1)
  }

  /** `cookies.match(regex)`, reduced to its capture group: the leftmost match's raw value. */
  function RawValue(name: string, cookies: string): (r: Option<string>)
    ensures r.None? <==> forall i :: 0 <= i <= |cookies| ==> MatchAt(cookies, name, i).None?
    ensures r.Some? ==> exists i :: 0 <= i <= |cookies| && MatchAt(cookies, name, i) == r &&
                                    forall j :: 0 <= j < i ==> MatchAt(cookies, name, j).None?
    ensures r.Some? ==> forall k :: 0 <= k < |r.value| ==> r.value[k] != ';' && !IsLineTerminator(r.value[k])
  {
    match FirstMatchFrom(cookies, name, 0)
    case None => None
    case Some(i) => MatchAt(cookies, name, i)
  }

  /** The exported function: `match && unescape(match[1])`, with None for `null`. */
  function Extract(name: string, cookies: string): (r: Option<string>)
    ensures r.None? <==> RawValue(name, cookies).None?
    ensures r.Some? ==> r.value == Unescape(RawValue(name, cookies).value)
  {
    match RawValue(name, cookies)
    case None => None
    case Some(v) => Some(Unescape(v))
  }

  // ---------------------------------------------------------------------------
  // Properties of the match
  // ---------------------------------------------------------------------------

  /** `NAME=` at `q` is at the start of the header or after a `;`, with at most one white-space character between. */
  predicate AnchoredName(s: string, name: string, q: nat) {
    NameAt(s, name, q) &&
    (q == 0 || s[q - 1] == ';' || (IsSpace(s[q - 1]) && (q == 1 || s[q - 2] == ';')))
  }

  /** No `NAME=` is anchored before index `q`. */
  predicate NoPairBefore(s: string, name: string, q: nat) {
    forall p: nat :: p < q ==> !AnchoredName(s, name, p)
  }

  /** A match at index `i` is the capture of a `NAME=` anchored at `i`, `i + 1` or `i + 2`. */
  lemma MatchIsAnchored(s: string, name: string, i: nat) returns (p: nat)
    requires i <= |s| && MatchAt(s, name, i).Some?
    ensures i <= p <= i + 2 && AnchoredName(s, name, p) && MatchAt(s, name, i) == CaptureAt(s, name, p)
  {
    var c := if i == 0 && AfterAnchor(s, name, 0).Some? then 0 else i + 1;
    assert c > 0 ==> s[c - 1] == ';';
    assert MatchAt(s, name, i) == AfterAnchor(s, name, c);
    if c < |s| && IsSpace(s[c]) && CaptureAt(s, name, c + 1).Some? {
      p := c + 1;
      assert s[p - 1] == s[c];
    } else {
      p := c;
    }
  }

  /** No `NAME=` at the start or after a separator: the result is `null`. */
  lemma NoAnchoredNameMeansNull(name: string, s: string)
    requires forall q :: !AnchoredName(s, name, q)
    ensures Extract(name, s) == None
  {
    forall i | 0 <= i <= |s| ensures MatchAt(s, name, i).None? {
      if MatchAt(s, name, i).Some? {
        var _ := MatchIsAnchored(s, name, i);
      }
    }
  }

  /** Conversely, in a header without line terminators any anchored `NAME=` yields a value. */
  lemma AnchoredNameIsFound(name: string, s: string, q: nat)
    requires AnchoredName(s, name, q)
    requires forall k :: 0 <= k < |s| ==> !IsLineTerminator(s[k])
    ensures Extract(name, s).Some?
  {
    assert CaptureAt(s, name, q).Some?;
    var i: nat := if q == 0 then 0 else if s[q - 1] == ';' then q - 1 else if q == 1 then 0 else q - 2;
    assert MatchAt(s, name, i).Some?;
  }

  /** `NAME=` at `q` does not start with white space when the name does not. */
  lemma NoSpaceAtName(s: string, name: string, q: nat)
    requires NameAt(s, name, q)
    requires name == [] || !IsSpace(name[0])
    ensures !IsSpace(s[q])
  {
    if name == [] {
      assert s[q] == '=';
    } else {
      assert s[q..q + |name|][0] == s[q];
    }
  }

  /** The index at which the pattern begins for a `NAME=` anchored at `q`. */
  function AnchorIndex(s: string, name: string, q: nat): (i: nat)
    requires AnchoredName(s, name, q)
    ensures i <= q && q <= i + 2
  {
    if q == 0 then 0 else if s[q - 1] == ';' then q - 1 else if q == 1 then 0 else q - 2
  }

  lemma MatchAtAnchorIndex(s: string, name: string, q: nat)
    requires name == [] || !IsSpace(name[0])
    requires AnchoredName(s, name, q) && NoPairBefore(s, name, q)
    requires CaptureAt(s, name, q).Some?
    ensures MatchAt(s, name, AnchorIndex(s, name, q)) == CaptureAt(s, name, q)
  {
    NoSpaceAtName(s, name, q);
    if q == 0 {
      assert AfterAnchor(s, name, 0) == CaptureAt(s, name, 0);
    } else {
      // a `NAME=` at 0 would be anchored before q
      assert !AnchoredName(s, name, 0);
      assert CaptureAt(s, name, 0) == None;
      if s[q - 1] == ';' {
        assert AfterAnchor(s, name, q) == CaptureAt(s, name, q);
        if q == 1 {
          assert AfterAnchor(s, name, 0) == None;
        }
      } else if q == 1 {
        assert AfterAnchor(s, name, 0) == CaptureAt(s, name, 1);
      } else {
        assert AfterAnchor(s, name, q - 1) == CaptureAt(s, name, q);
        if q == 2 {
          assert AfterAnchor(s, name, 0) == None;
        }
      }
    }
  }

  /**
   * The first anchored `NAME=` decides the result: its capture (the text after it up to the
   * next `;` or the end) unescaped, whatever other pairs come before or after it.
   */
  lemma FirstPairWins(name: string, s: string, q: nat)
    requires name == [] || !IsSpace(name[0])
    requires AnchoredName(s, name, q) && NoPairBefore(s, name, q)
    requires CaptureAt(s, name, q).Some?
    ensures RawValue(name, s) == CaptureAt(s, name, q)
    ensures Extract(name, s) == Some(Unescape(CaptureAt(s, name, q).value))
  {
    var iq := AnchorIndex(s, name, q);
    MatchAtAnchorIndex(s, name, q);
    assert MatchAt(s, name, iq).Some?;
    var first := FirstMatchFrom(s, name, 0);
    assert first.Some? && first.value <= iq;
    var i := first.value;
    assert RawValue(name, s) == MatchAt(s, name, i);
    var p := MatchIsAnchored(s, name, i);
    // an earlier match could only come from a pair anchored before q
    assert q <= p;
    assert i == iq || p == q;
  }

  /** A header with no `;` holds a single pair: unless it starts with `NAME=`, nothing matches, whatever follows. */
  lemma WithoutSeparatorOnlyLeadingPair(name: string, s: string)
    requires forall k :: 0 <= k < |s| ==> s[k] != ';'
    requires !NameAt(s, name, 0) && !(|s| > 0 && IsSpace(s[0]) && NameAt(s, name, 1))
    ensures Extract(name, s) == None
  {
    forall q: nat ensures !AnchoredName(s, name, q) {
      if 0 < q <= |s| {
        assert s[q - 1] != ';';
      }
    }
    NoAnchoredNameMeansNull(name, s);
  }

  /** A cookie whose name merely ends with the requested one is not matched. */
  lemma LongerNameNotMatched()
    ensures Extract("accept-language", "x-accept-language=fr-FR") == None
  {
    var s := "x-accept-language=fr-FR";
    assert Fold(s[0]) != Fold('a');
    assert !NameAt(s, "accept-language", 0);
    WithoutSeparatorOnlyLeadingPair("accept-language", s);
  }

  /** Names equal up to ASCII case find the same value. */
  lemma {:induction false} ExtractIgnoresNameCase(a: string, b: string, s: string)
    requires EqualsIgnoringCase(a, b)
    ensures Extract(a, s) == Extract(b, s)
  {
    forall q: nat ensures NameAt(s, a, q) == NameAt(s, b, q) {
      if q + |a| < |s| {
        var t := s[q..q + |a|];
        assert EqualsIgnoringCase(t, a) <==> EqualsIgnoringCase(t, b);
      }
    }
    forall q: nat ensures CaptureAt(s, a, q) == CaptureAt(s, b, q) { }
    forall i | 0 <= i <= |s| ensures MatchAt(s, a, i) == MatchAt(s, b, i) { }
    // the leftmost match is the same index for both names
    var ra, rb := RawValue(a, s), RawValue(b, s);
    if ra.Some? && rb.Some? {
      var i :| 0 <= i <= |s| && MatchAt(s, a, i) == ra && forall j :: 0 <= j < i ==> MatchAt(s, a, j).None?;
      var k :| 0 <= k <= |s| && MatchAt(s, b, k) == rb && forall j :: 0 <= j < k ==> MatchAt(s, b, j).None?;
      assert MatchAt(s, b, i).Some? && MatchAt(s, a, k).Some?;
      assert i == k;
    }
  }

  /**
   * A header that begins with `NAME=v`, `v` free of `;` and line terminators, yields `v`
   * unescaped, whatever pairs follow the next `;`: the first match wins and the value stops
   * at the separator.
   */
  lemma LeadingPairWins(name: string, v: string, tail: string)
    requires name == [] || !IsSpace(name[0])
    requires forall k :: 0 <= k < |v| ==> v[k] != ';' && !IsLineTerminator(v[k])
    requires tail == [] || tail[0] == ';'
    ensures Extract(name, name + "=" + v + tail) == Some(Unescape(v))
  {
    var s := name + "=" + v + tail;
    assert [] + name == name;
    PairCapture(s, [], name, v, tail);
    FirstPairWins(name, s, 0);
  }

  /** The capture of a pair `NAME=v` placed after `prefix` in `s`. */
  lemma PairCapture(s: string, prefix: string, name: string, v: string, tail: string)
    requires s == prefix + name + "=" + v + tail
    requires forall k :: 0 <= k < |v| ==> v[k] != ';' && !IsLineTerminator(v[k])
    requires tail == [] || tail[0] == ';'
    ensures NameAt(s, name, |prefix|)
    ensures CaptureAt(s, name, |prefix|) == Some(v)
  {
    var q := |prefix|;
    var start := q + |name| + 1;
    assert s == (prefix + name) + ("=" + v + tail);
    assert s[q..q + |name|] == name;
    assert s[q + |name|] == '=';
    assert s[start..] == v + tail;
    assert s[start..start + |v|] == v;
    ValueEndAt(s, start, start + |v|);
  }

  lemma ValueEndAt(s: string, v: nat, e: nat)
    requires v <= e <= |s|
    requires forall k :: v <= k < e ==> s[k] != ';' && !IsLineTerminator(s[k])
    requires e == |s| || s[e] == ';'
    ensures ValueEnd(s, v) == Some(e)
    decreases e - v
  {
    if v < e {
      ValueEndAt(s, v + 1, e);
    }
  }

  // ---------------------------------------------------------------------------
  // unescape (line 7)
  // ---------------------------------------------------------------------------

  predicate IsHexDigit(c: char) {
    '0' <= c <= '9' || 'a' <= c <= 'f' || 'A' <= c <= 'F'
  }

  function HexValue(c: char): (n: nat)
    requires IsHexDigit(c)
    ensures n < 16
  {
    if '0' <= c <= '9' then c as int - '0' as int
    else if 'a' <= c <= 'f' then c as int - 'a' as int + 10
    else c as int - 'A' as int + 10
  }

  /** The upper-case digit `escape` writes. */
  function HexDigit(n: nat): (c: char)
    requires n < 16
    ensures IsHexDigit(c) && HexValue(c) == n
  {
    if n < 10 then ('0' as int + n) as char else ('A' as int + n - 10) as char
  }

  predicate IsSurrogate(n: int) {
    0xD800 <= n < 0xE000
  }

  predicate IsHighSurrogate(n: int) {
    0xD800 <= n < 0xDC00
  }

  predicate IsLowSurrogate(n: int) {
    0xDC00 <= n < 0xE000
  }

  /** The code unit `%uXXXX` names, read from the four digits at the front of `s`. */
  function Hex4(s: string): (n: nat)
    requires |s| >= 4 && IsHexDigit(s[0]) && IsHexDigit(s[1]) && IsHexDigit(s[2]) && IsHexDigit(s[3])
    ensures n < 0x10000
  {
    4096 * HexValue(s[0]) + 256 * HexValue(s[1]) + 16 * HexValue(s[2]) + HexValue(s[3])
  }

  /** A `%uXXXX` sequence at the front of `s`, whatever code unit it names. */
  predicate UnitEscapeAt(s: string) {
    |s| >= 6 && s[0] == '%' && s[1] == 'u' &&
    IsHexDigit(s[2]) && IsHexDigit(s[3]) && IsHexDigit(s[4]) && IsHexDigit(s[5])
  }

  /** The code unit named by the `%uXXXX` at the front of `s`. */
  function UnitAt(s: string): (n: nat)
    requires UnitEscapeAt(s)
    ensures n < 0x10000
  {
    Hex4(s[2..])
  }

  /** A `%uXXXX` sequence of a non-surrogate code unit at the front of `s`. */
  predicate UnicodeEscapeAt(s: string) {
    UnitEscapeAt(s) && !IsSurrogate(UnitAt(s))
  }

  /**
   * Two `%uXXXX` sequences naming a high then a low surrogate: JavaScript's string then holds
   * the pair, which is one supplementary character.
   */
  predicate SurrogatePairAt(s: string) {
    UnitEscapeAt(s) && IsHighSurrogate(UnitAt(s)) && UnitEscapeAt(s[6..]) && IsLowSurrogate(UnitAt(s[6..]))
  }

  /** The character a high and a low surrogate encode together (section 3.9 of the Unicode Standard). */
  function PairValue(hi: nat, lo: nat): (n: nat)
    requires IsHighSurrogate(hi) && IsLowSurrogate(lo)
    ensures 0x10000 <= n < 0x110000
  {
    0x10000 + (hi - 0xD800) * 0x400 + (lo - 0xDC00)
  }

  /** A `%XX` sequence at the front of `s`. */
  predicate ByteEscapeAt(s: string) {
    |s| >= 3 && s[0] == '%' && IsHexDigit(s[1]) && IsHexDigit(s[2])
  }

  /**
   * JavaScript's global `unescape`: `%uXXXX` first, then `%XX`; any other character is kept.
   * A surrogate pair written as two `%uXXXX` becomes the one character it encodes.
   */
  function Unescape(s: string): (r: string)
    ensures |r| <= |s|
    ensures (forall k :: 0 <= k < |s| ==> s[k] != '%') ==> r == s
    decreases |s|
  {
    if s == [] then []
    else if SurrogatePairAt(s) then [PairValue(UnitAt(s), UnitAt(s[6..])) as char] + Unescape(s[12..])
    else if UnicodeEscapeAt(s) then [UnitAt(s) as char] + Unescape(s[6..])
    else if ByteEscapeAt(s) then [(16 * HexValue(s[1]) + HexValue(s[2])) as char] + Unescape(s[3..])
    else [s[0]] + Unescape(s[1..])
  }

  // ---------------------------------------------------------------------------
  // escape: the encoding unescape undoes
  // ---------------------------------------------------------------------------

  /** The characters JavaScript's `escape` leaves as they are. */
  predicate KeptByEscape(c: char) {
    'A' <= c <= 'Z' || 'a' <= c <= 'z' || '0' <= c <= '9' || c in "@*_+-./"
  }

  /** `%uXXXX` for the code unit `u`, in upper-case digits. */
  function UnitEscape(u: nat): (e: string)
    requires u < 0x10000
    ensures |e| == 6 && UnitEscapeAt(e) && UnitAt(e) == u
  {
    HexDigitsRecombine(u);
    var e := ['%', 'u', HexDigit(u / 4096), HexDigit(u / 256 % 16), HexDigit(u / 16 % 16), HexDigit(u % 16)];
    assert e[2..][..4] == e[2..6];
    e
  }

  /** The high surrogate of a supplementary character. */
  function HighOf(n: nat): (hi: nat)
    requires 0x10000 <= n < 0x110000
    ensures IsHighSurrogate(hi)
  {
    0xD800 + (n - 0x10000) / 0x400
  }

  /** The low surrogate of a supplementary character. */
  function LowOf(n: nat): (lo: nat)
    requires 0x10000 <= n < 0x110000
    ensures IsLowSurrogate(lo)
  {
    0xDC00 + (n - 0x10000) % 0x400
  }

  function EscapeChar(c: char): string {
    var n := c as int;
    if KeptByEscape(c) then [c]
    else if n < 256 then ['%', HexDigit(n / 16), HexDigit(n % 16)]
    else if n < 0x10000 then UnitEscape(n)
    else UnitEscape(HighOf(n)) + UnitEscape(LowOf(n))
  }

  /** JavaScript's global `escape`; a supplementary character is escaped as its two code units. */
  function Escape(t: string): string {
    if t == [] then [] else EscapeChar(t[0]) + Escape(t[1..])
  }

  lemma HexDigitsRecombine(n: nat)
    requires n < 0x10000
    ensures 4096 * (n / 4096) + 256 * (n / 256 % 16) + 16 * (n / 16 % 16) + n % 16 == n
  {
    var a, b, c, d := n / 4096, n / 256 % 16, n / 16 % 16, n % 16;
    assert n / 256 == 16 * a + b;
    assert n / 16 == 16 * (n / 256) + c;
    assert n == 16 * (n / 16) + d;
  }

  lemma SurrogatesRecombine(n: nat)
    requires 0x10000 <= n < 0x110000
    ensures PairValue(HighOf(n), LowOf(n)) == n
  {
  }

  lemma UnescapeByteEscape(n: nat, rest: string)
    requires n < 256
    ensures Unescape(['%', HexDigit(n / 16), HexDigit(n % 16)] + rest) == [n as char] + Unescape(rest)
  {
    var s := ['%', HexDigit(n / 16), HexDigit(n % 16)] + rest;
    assert s[1] == HexDigit(n / 16) && s[2] == HexDigit(n % 16);
    assert !UnitEscapeAt(s);
    assert ByteEscapeAt(s);
    assert s[3..] == rest;
  }

  lemma UnescapeUnitEscape(n: nat, rest: string)
    requires n < 0x10000 && !IsSurrogate(n)
    ensures Unescape(UnitEscape(n) + rest) == [n as char] + Unescape(rest)
  {
    var e := UnitEscape(n);
    var s := e + rest;
    assert s[..6] == e && s[6..] == rest;
    assert s[2..][..4] == e[2..][..4];
    assert UnitAt(s) == n;
    assert !SurrogatePairAt(s);
  }

  lemma UnescapeSurrogatePair(n: nat, rest: string)
    requires 0x10000 <= n < 0x110000
    ensures Unescape(UnitEscape(HighOf(n)) + UnitEscape(LowOf(n)) + rest) == [n as char] + Unescape(rest)
  {
    var hi, lo := UnitEscape(HighOf(n)), UnitEscape(LowOf(n));
    var s := hi + lo + rest;
    assert s[..6] == hi && s[6..12] == lo && s[12..] == rest;
    assert s[2..][..4] == hi[2..][..4];
    assert s[6..][2..][..4] == lo[2..][..4];
    assert UnitAt(s) == HighOf(n) && UnitAt(s[6..]) == LowOf(n);
    SurrogatesRecombine(n);
  }

  lemma UnescapeEscapedChar(c: char, rest: string)
    ensures Unescape(EscapeChar(c) + rest) == [c] + Unescape(rest)
  {
    var n := c as int;
    if KeptByEscape(c) {
      assert (EscapeChar(c) + rest)[1..] == rest;
    } else if n < 256 {
      UnescapeByteEscape(n, rest);
    } else if n < 0x10000 {
      UnescapeUnitEscape(n, rest);
    } else {
      UnescapeSurrogatePair(n, rest);
    }
  }

  /** `unescape` undoes `escape`, for every string. */
  lemma {:induction false} UnescapeInvertsEscape(t: string)
    ensures Unescape(Escape(t)) == t
  {
    if t != [] {
      UnescapeEscapedChar(t[0], Escape(t[1..]));
      UnescapeInvertsEscape(t[1..]);
      assert [t[0]] + t[1..] == t;
    }
  }
}
