/** Stand-ins for the Foundation string operations the core relies on:
    character sets, trimming, ASCII case mapping and quote escaping.
    Characters are atomic (no grapheme clusters). */
module Strings {

  /** Foundation's `CharacterSet.newlines`: U+000A to U+000D, U+0085, U+2028 and U+2029.
      ICU regular expressions treat the same characters as line terminators. */
  predicate IsNewline(c: char) {
    ('\n' <= c <= '\r') || c == '\U{85}' || c == '\U{2028}' || c == '\U{2029}'
  }

  /** Unicode general category Zs (space separators). */
  predicate IsSpaceSeparator(c: char) {
    c == ' ' || c == '\U{A0}' || c == '\U{1680}' || ('\U{2000}' <= c <= '\U{200A}')
    || c == '\U{202F}' || c == '\U{205F}' || c == '\U{3000}'
  }

  /** Foundation's `CharacterSet.whitespacesAndNewlines`, used by `trimmingCharacters(in:)`. */
  predicate IsTrimSpace(c: char) {
    c == '\t' || IsSpaceSeparator(c) || IsNewline(c)
  }

  /** `\s` of an ICU regular expression: `[\t\n\f\r\p{Z}]`. */
  predicate IsRegexSpace(c: char) {
    c == '\t' || c == '\n' || c == '\U{C}' || c == '\r'
    || IsSpaceSeparator(c) || c == '\U{2028}' || c == '\U{2029}'
  }

  /** Length of the longest prefix of `s` made of trimmable characters. */
  function LeadingSpaces(s: string): (k: nat)
    ensures k <= |s|
    ensures forall i | 0 <= i < k :: IsTrimSpace(s[i])
    ensures k < |s| ==> !IsTrimSpace(s[k])
  {
    if s == [] || !IsTrimSpace(s[0]) then 0 else 1 + LeadingSpaces(s[1..])
  }

  /** Length of the longest suffix of `s` made of trimmable characters. */
  function TrailingSpaces(s: string): (k: nat)
    ensures k <= |s|
    ensures forall i | |s| - k <= i < |s| :: IsTrimSpace(s[i])
    ensures k < |s| ==> !IsTrimSpace(s[|s| - 1 - k])
  {
    if s == [] || !IsTrimSpace(s[|s| - 1]) then 0 else 1 + TrailingSpaces(s[..|s| - 1])
  }

  /** `trimmingCharacters(in: .whitespacesAndNewlines)`: the longest infix of `s`
      that neither starts nor ends with whitespace. */
  function Trim(s: string): (r: string)
    ensures |r| <= |s|
    ensures r == [] || (!IsTrimSpace(r[0]) && !IsTrimSpace(r[|r| - 1]))
    ensures r == [] <==> forall i | 0 <= i < |s| :: IsTrimSpace(s[i])
    ensures exists a, b | 0 <= a <= b <= |s| ::
      && r == s[a..b]
      && (forall i | 0 <= i < a :: IsTrimSpace(s[i]))
      && (forall i | b <= i < |s| :: IsTrimSpace(s[i]))
  {
    var k := LeadingSpaces(s);
    var e := TrailingSpaces(s);
    if k + e >= |s| then
      assert s[k..k] == [];
      []
    else
      s[k..|s| - e]
  }

  /** The trim of `s` is the infix `s[a..b]` that only whitespace surrounds and that
      neither starts nor ends with whitespace. */
  lemma TrimAt(s: string, a: nat, b: nat)
    requires a < b <= |s| && !IsTrimSpace(s[a]) && !IsTrimSpace(s[b - 1])
    requires forall i | 0 <= i < a :: IsTrimSpace(s[i])
    requires forall i | b <= i < |s| :: IsTrimSpace(s[i])
    ensures Trim(s) == s[a..b]
  {
    var a', b' :| 0 <= a' <= b' <= |s| && Trim(s) == s[a'..b']
      && (forall i | 0 <= i < a' :: IsTrimSpace(s[i]))
      && (forall i | b' <= i < |s| :: IsTrimSpace(s[i]));
    assert Trim(s) != [];
    assert a' == a;
    assert b' == b;
  }

  /** A string that neither starts nor ends with whitespace is its own trim. */
  lemma TrimUnchanged(s: string)
    requires s == [] || (!IsTrimSpace(s[0]) && !IsTrimSpace(s[|s| - 1]))
    ensures Trim(s) == s
  {
    if s != [] {
      TrimAt(s, 0, |s|);
    }
  }

  /** A string without quotes is left as it is by the escaping. */
  lemma {:induction false} EscapeQuotesWithoutQuotes(s: string)
    requires forall i | 0 <= i < |s| :: s[i] != '"'
    ensures EscapeQuotes(s) == s
  {
    if s != [] {
      EscapeQuotesWithoutQuotes(s[1..]);
      assert [s[0]] + s[1..] == s;
    }
  }

  /** ASCII-only `lowercased()` of one character. */
  function LowerChar(c: char): char {
    if 'A' <= c <= 'Z' then (c as int + 32) as char else c
  }

  /** ASCII-only `uppercased()` of one character. */
  function UpperChar(c: char): char {
    if 'a' <= c <= 'z' then (c as int - 32) as char else c
  }

  function Lower(s: string): (r: string)
    ensures |r| == |s|
    ensures forall i | 0 <= i < |s| :: r[i] == LowerChar(s[i])
  {
    seq(|s|, i requires 0 <= i < |s| => LowerChar(s[i]))
  }

  function Upper(s: string): (r: string)
    ensures |r| == |s|
    ensures forall i | 0 <= i < |s| :: r[i] == UpperChar(s[i])
  {
    seq(|s|, i requires 0 <= i < |s| => UpperChar(s[i]))
  }

  /** Lowering first loses nothing that upper-casing keeps. */
  lemma UpperOfLower(s: string)
    ensures Upper(Lower(s)) == Upper(s)
  {
    assert forall i | 0 <= i < |s| :: UpperChar(LowerChar(s[i])) == UpperChar(s[i]);
  }

  lemma LowerOfLower(s: string)
    ensures Lower(Lower(s)) == Lower(s)
  {
  }

  /** `replacingOccurrences(of: "\"", with: "\\\"")`: every quote gets a backslash in front. */
  function EscapeQuotes(s: string): (r: string)
    ensures |r| == |s| + multiset(s)['"']
    ensures r == [] || r[0] != '"'
  {
    if s == [] then []
    else
      assert s == [s[0]] + s[1..];
      (if s[0] == '"' then ['\\', '"'] else [s[0]]) + EscapeQuotes(s[1..])
  }

  /** Every quote of an escaped string has a backslash in front of it. */
  lemma {:induction false} EscapedQuotesPreceded(s: string, i: nat)
    requires i < |EscapeQuotes(s)| && EscapeQuotes(s)[i] == '"'
    ensures 0 < i && EscapeQuotes(s)[i - 1] == '\\'
    decreases |s|
  {
    var r := EscapeQuotes(s);
    var rest := EscapeQuotes(s[1..]);
    var head: string := if s[0] == '"' then ['\\', '"'] else [s[0]];
    assert r == head + rest;
    if i >= |head| {
      assert r[i] == rest[i - |head|];
      EscapedQuotesPreceded(s[1..], i - |head|);
      assert i - |head| > 0;
      assert r[i - 1] == rest[i - |head| - 1];
    } else {
      assert s[0] == '"' && i == 1;
    }
  }

  /** Reference inverse of `EscapeQuotes`: drops the backslash in front of each quote. */
  function UnescapeQuotes(s: string): string {
    if |s| >= 2 && s[0] == '\\' && s[1] == '"' then ['"'] + UnescapeQuotes(s[2..])
    else if s == [] then []
    else [s[0]] + UnescapeQuotes(s[1..])
  }

  /** Escaping loses no information. */
  lemma {:induction false} UnescapeEscape(s: string)
    ensures UnescapeQuotes(EscapeQuotes(s)) == s
  {
    if s != [] {
      UnescapeEscape(s[1..]);
      var rest := EscapeQuotes(s[1..]);
      assert rest == [] || rest[0] != '"';
      if s[0] == '"' {
        var x := ['\\', '"'] + rest;
        assert EscapeQuotes(s) == x;
        assert x[2..] == rest;
        assert UnescapeQuotes(x) == ['"'] + UnescapeQuotes(rest);
      } else {
        var x := [s[0]] + rest;
        assert EscapeQuotes(s) == x;
        assert x[1..] == rest;
        assert !(|x| >= 2 && x[0] == '\\' && x[1] == '"');
        assert UnescapeQuotes(x) == [s[0]] + UnescapeQuotes(rest);
      }
      assert [s[0]] + s[1..] == s;
    }
  }
}
