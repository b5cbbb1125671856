/** The few JavaScript string operations the extractor relies on: `String.prototype.trim`,
    the UTF-16 `length`, the `||` fallback between strings, substring search, and the
    case-insensitive matching of a `/.../i` regular expression built from a plain phrase. */
module JsString {
  import opened Wrappers

  /** The WhiteSpace and LineTerminator code points of ECMAScript, which `trim` removes:
      TAB, VT, FF, SP, NBSP, ZWNBSP, every other Zs space, LF, CR, LS and PS. */
  predicate IsWhiteSpace(c: char) {
    || c == '\t' || c == '\n' || c == '\U{000B}' || c == '\U{000C}' || c == '\r' || c == ' '
    || c == '\U{00A0}' || c == '\U{1680}' || ('\U{2000}' <= c <= '\U{200A}')
    || c == '\U{2028}' || c == '\U{2029}' || c == '\U{202F}' || c == '\U{205F}'
    || c == '\U{3000}' || c == '\U{FEFF}'
  }

  predicate AllWhiteSpace(s: string) {
    forall k :: 0 <= k < |s| ==> IsWhiteSpace(s[k])
  }

  /** Neither end of `s` is white space: what `trim` leaves behind. */
  predicate IsTrimmed(s: string) {
    s == "" || (!IsWhiteSpace(s[0]) && !IsWhiteSpace(s[|s| - 1]))
  }

  /** The number of white-space characters `s` starts with. */
  function LeadingWhiteSpace(s: string): (n: nat)
    ensures n <= |s|
    ensures forall k :: 0 <= k < n ==> IsWhiteSpace(s[k])
    ensures n < |s| ==> !IsWhiteSpace(s[n])
  {
    if s != "" && IsWhiteSpace(s[0]) then
      var m := LeadingWhiteSpace(s[1..]);
      assert forall k :: 1 <= k < 1 + m ==> s[k] == s[1..][k - 1];
      1 + m
    else 0
  }

  /** `s` with its leading white space removed. */
  function TrimStart(s: string): (r: string)
    ensures |r| <= |s| && r == s[|s| - |r|..]
    ensures AllWhiteSpace(s[..|s| - |r|])
    ensures r != "" ==> !IsWhiteSpace(r[0])
  {
    s[LeadingWhiteSpace(s)..]
  }

  /** `s` with its trailing white space removed. */
  function TrimEnd(s: string): (r: string)
    ensures |r| <= |s| && r == s[..|r|]
    ensures AllWhiteSpace(s[|r|..])
    ensures r != "" ==> !IsWhiteSpace(r[|r| - 1])
  {
    if s != "" && IsWhiteSpace(s[|s| - 1]) then TrimEnd(s[..|s| - 1]) else s
  }

  /** `r` is the infix of `s` at offset `i`, with only white space before and after it. */
  predicate IsInfixBetweenWhiteSpace(s: string, r: string, i: int) {
    && 0 <= i <= |s| - |r|
    && r == s[i..i + |r|]
    && AllWhiteSpace(s[..i])
    && AllWhiteSpace(s[i + |r|..])
  }

  /** `String.prototype.trim`: the infix of `s` left once the white space at both ends is cut off. */
  function Trim(s: string): (r: string)
    ensures IsTrimmed(r)
    ensures exists i :: IsInfixBetweenWhiteSpace(s, r, i)
  {
    var front := TrimStart(s);
    var r := TrimEnd(front);
    var i := |s| - |front|;
    assert r == s[i..i + |r|];
    assert s[i + |r|..] == front[|r|..];
    assert IsInfixBetweenWhiteSpace(s, r, i);
    r
  }

  /** Trimming a trimmed string changes nothing, so `trim` is idempotent. */
  lemma TrimOfTrimmed(s: string)
    requires IsTrimmed(s)
    ensures Trim(s) == s
  {
  }

  lemma TrimIdempotent(s: string)
    ensures Trim(Trim(s)) == Trim(s)
  {
    TrimOfTrimmed(Trim(s));
  }

  /** `trim` yields "" exactly when the string is all white space. */
  lemma TrimEmptyIffAllWhiteSpace(s: string)
    ensures Trim(s) == "" <==> AllWhiteSpace(s)
  {
    var front := TrimStart(s);
    if Trim(s) == "" {
      assert AllWhiteSpace(front[0..]);
      assert s == s[..|s| - |front|] + front;
    }
  }

  /** JavaScript's `length`: the number of UTF-16 code units, two for a code point above U+FFFF. */
  function Utf16Length(s: string): (n: nat)
    ensures |s| <= n <= 2 * |s|
  {
    if s == "" then 0 else (if s[0] as int >= 0x1_0000 then 2 else 1) + Utf16Length(s[1..])
  }

  /** `length` adds up over a concatenation. */
  lemma {:induction false} Utf16LengthAppend(a: string, b: string)
    ensures Utf16Length(a + b) == Utf16Length(a) + Utf16Length(b)
  {
    if a == [] {
      assert a + b == b;
    } else {
      assert (a + b)[1..] == a[1..] + b;
      Utf16LengthAppend(a[1..], b);
    }
  }

  /** One character is one code unit, or two when it lies above U+FFFF. */
  lemma Utf16LengthOfChar(c: char)
    ensures Utf16Length([c]) == if c as int >= 0x1_0000 then 2 else 1
  {
    assert [c][1..] == "";
  }

  /** A string within the Basic Multilingual Plane has as many code units as characters. */
  lemma {:induction false} Utf16LengthOfBmp(s: string)
    requires forall k :: 0 <= k < |s| ==> s[k] as int < 0x1_0000
    ensures Utf16Length(s) == |s|
  {
    if s != "" {
      Utf16LengthOfBmp(s[1..]);
    }
  }

  /** The string operand of JavaScript's `a || b`: an absent (`null`) or empty `a` is falsy. */
  function OrElse(a: Option<string>, b: string): (r: string)
    ensures a.Some? && a.value != "" ==> r == a.value
    ensures a.None? || a.value == "" ==> r == b
    ensures r == "" ==> b == ""
  {
    if a.Some? && a.value != "" then a.value else b
  }

  /** `p` occurs in `s` as a contiguous block (the `*=` attribute operator, a regex without meta-characters). */
  predicate IsSubstring(p: string, s: string) {
    exists i | 0 <= i <= |s| - |p| :: OccursAt(p, s, i)
  }

  predicate OccursAt(p: string, s: string, i: int) {
    0 <= i <= |s| - |p| && s[i..i + |p|] == p
  }

  function AsciiLower(c: char): char {
    if 'A' <= c <= 'Z' then (c as int + 32) as char else c
  }

  /** The canonicalisation a non-Unicode `/.../i` regular expression applies before comparing
      characters, restricted to ASCII: an ASCII letter folds to upper case and no character outside
      ASCII folds into ASCII, so for the ASCII phrases matched here the other mappings never matter. */
  function AsciiUpper(c: char): char {
    if 'a' <= c <= 'z' then (c as int - 32) as char else c
  }

  function Lowered(s: string): string {
    seq(|s|, i requires 0 <= i < |s| => AsciiLower(s[i]))
  }

  lemma LoweredIdempotent(s: string)
    ensures Lowered(Lowered(s)) == Lowered(s)
  {
  }

  /** A phrase of lower-case ASCII letters and spaces, the form of every pattern the classifier uses. */
  predicate IsLowerPhrase(p: string) {
    forall j :: 0 <= j < |p| ==> ('a' <= p[j] <= 'z' || p[j] == ' ')
  }

  /** The regular expression `/p/i`, for an ASCII phrase `p`, matches `s` at position `i`. Only
      ASCII letters are folded, so for a phrase with non-ASCII letters (`/é/i` matching "É") this
      is not JavaScript's test; every phrase the classifier uses is ASCII. */
  ghost predicate MatchesAtIgnoringCase(s: string, p: string, i: int) {
    0 <= i && i + |p| <= |s| && forall j :: 0 <= j < |p| ==> AsciiUpper(s[i + j]) == AsciiUpper(p[j])
  }

  /** `/p/i.test(s)` for an ASCII phrase `p`, as the regular-expression semantics defines it: a
      match at some position. */
  ghost predicate TestIgnoringCase(s: string, p: string) {
    exists i :: MatchesAtIgnoringCase(s, p, i)
  }

  /** Searching the lower-cased text for a lower-case phrase is the case-insensitive regex test. */
  function ContainsIgnoringCase(s: string, p: string): (r: bool)
    requires IsLowerPhrase(p)
    ensures r <==> TestIgnoringCase(s, p)
  {
    SearchLoweredIsRegexTest(s, p);
    IsSubstring(p, Lowered(s))
  }

  lemma SearchLoweredIsRegexTest(s: string, p: string)
    requires IsLowerPhrase(p)
    ensures IsSubstring(p, Lowered(s)) <==> TestIgnoringCase(s, p)
  {
    var t := Lowered(s);
    forall i | 0 <= i <= |s| - |p|
      ensures OccursAt(p, t, i) <==> MatchesAtIgnoringCase(s, p, i)
    {
      forall j | 0 <= j < |p|
        ensures AsciiLower(s[i + j]) == p[j] <==> AsciiUpper(s[i + j]) == AsciiUpper(p[j])
      {
        FoldAgrees(s[i + j], p[j]);
      }
      if MatchesAtIgnoringCase(s, p, i) {
        assert forall j :: 0 <= j < |p| ==> t[i..i + |p|][j] == p[j];
      }
      if t[i..i + |p|] == p {
        assert forall j :: 0 <= j < |p| ==> t[i + j] == p[j];
      }
    }
    if TestIgnoringCase(s, p) {
      var i :| MatchesAtIgnoringCase(s, p, i);
      assert OccursAt(p, t, i);
    }
    if IsSubstring(p, t) {
      var i :| 0 <= i <= |t| - |p| && OccursAt(p, t, i);
      assert 0 <= i <= |s| - |p|;
      assert MatchesAtIgnoringCase(s, p, i);
    }
  }

  /** `/p/i` cannot tell a text from its lower-cased form: the test ignores the case of the text. */
  lemma TestIgnoresCaseOfText(s: string, p: string)
    ensures TestIgnoringCase(Lowered(s), p) <==> TestIgnoringCase(s, p)
  {
    var t := Lowered(s);
    assert forall k :: 0 <= k < |s| ==> AsciiUpper(t[k]) == AsciiUpper(s[k]);
    forall i | MatchesAtIgnoringCase(t, p, i)
      ensures MatchesAtIgnoringCase(s, p, i)
    {
    }
    forall i | MatchesAtIgnoringCase(s, p, i)
      ensures MatchesAtIgnoringCase(t, p, i)
    {
    }
  }

  /** For a lower-case letter or a space `q`, folding `c` down to `q` is folding both up together. */
  lemma FoldAgrees(c: char, q: char)
    requires 'a' <= q <= 'z' || q == ' '
    ensures AsciiLower(c) == q <==> AsciiUpper(c) == AsciiUpper(q)
  {
  }
}
