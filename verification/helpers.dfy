/**
 * The string and value helpers of `claude_code_setup.utils.helpers`:
 * `sanitize_string` (drop every character outside `[a-zA-Z0-9\s]`, then
 * strip surrounding whitespace) and `validate_input` (a value or a default).
 */
module Helpers {
  import opened Wrappers

  // ---------------------------------------------------------------------
  // Character classes
  // ---------------------------------------------------------------------

  /** `a-z` and `A-Z` of the character class: ASCII only, no case folding. */
  predicate IsAsciiLetter(c: char) {
    'a' <= c <= 'z' || 'A' <= c <= 'Z'
  }

  /** `0-9` of the character class: ASCII digits only. */
  predicate IsAsciiDigit(c: char) {
    '0' <= c <= '9'
  }

  /**
   * Python's whitespace for `str`: the characters `\s` matches in a `str`
   * pattern, which are also the characters `str.strip()` removes.
   * These are U+0009..U+000D, U+001C..U+0020, U+0085, U+00A0, U+1680,
   * U+2000..U+200A, U+2028, U+2029, U+202F, U+205F and U+3000.
   */
  predicate IsWhitespace(c: char) {
    || '\t' <= c <= '\r'
    || '\U{1C}' <= c <= ' '
    || c == '\U{85}'
    || c == '\U{A0}'
    || c == '\U{1680}'
    || '\U{2000}' <= c <= '\U{200A}'
    || c == '\U{2028}'
    || c == '\U{2029}'
    || c == '\U{202F}'
    || c == '\U{205F}'
    || c == '\U{3000}'
  }

  /** Membership in `[a-zA-Z0-9\s]`: the characters the substitution keeps. */
  predicate IsKept(c: char) {
    IsAsciiLetter(c) || IsAsciiDigit(c) || IsWhitespace(c)
  }

  predicate AllKept(s: string) {
    forall x :: 0 <= x < |s| ==> IsKept(s[x])
  }

  /** Neither the first nor the last character is whitespace. */
  predicate NoEdgeWhitespace(s: string) {
    s == [] || (!IsWhitespace(s[0]) && !IsWhitespace(s[|s| - 1]))
  }

  // ---------------------------------------------------------------------
  // Subsequences
  // ---------------------------------------------------------------------

  /** `a` is obtained from `b` by deleting zero or more characters. */
  predicate IsSubsequence(a: string, b: string)
    decreases |b|
  {
    if b == [] then a == []
    else
      || (a != [] && a[0] == b[0] && IsSubsequence(a[1..], b[1..]))
      || IsSubsequence(a, b[1..])
  }

  lemma {:induction false} SubsequenceTrans(a: string, b: string, c: string)
    requires IsSubsequence(a, b) && IsSubsequence(b, c)
    ensures IsSubsequence(a, c)
    decreases |c|
  {
    if c == [] {
    } else if IsSubsequence(b, c[1..]) {
      SubsequenceTrans(a, b, c[1..]);
    } else {
      assert b != [] && b[0] == c[0] && IsSubsequence(b[1..], c[1..]);
      if a != [] && a[0] == b[0] && IsSubsequence(a[1..], b[1..]) {
        SubsequenceTrans(a[1..], b[1..], c[1..]);
      } else {
        SubsequenceTrans(a, b[1..], c[1..]);
      }
    }
  }

  /** A subsequence never grows. */
  lemma {:induction false} SubsequenceLength(a: string, b: string)
    requires IsSubsequence(a, b)
    ensures |a| <= |b|
    decreases |b|
  {
    if b != [] {
      if a != [] && a[0] == b[0] && IsSubsequence(a[1..], b[1..]) {
        SubsequenceLength(a[1..], b[1..]);
      } else {
        SubsequenceLength(a, b[1..]);
      }
    }
  }

  lemma {:induction false} EmptyIsSubsequence(s: string)
    ensures IsSubsequence([], s)
    decreases |s|
  {
    if s != [] {
      EmptyIsSubsequence(s[1..]);
    }
  }

  /** Every contiguous slice is a subsequence. */
  lemma {:induction false} SliceIsSubsequence(s: string, i: nat, j: nat)
    requires i <= j <= |s|
    ensures IsSubsequence(s[i..j], s)
    decreases |s|
  {
    if i > 0 {
      SliceIsSubsequence(s[1..], i - 1, j - 1);
      assert s[1..][i - 1..j - 1] == s[i..j];
    } else if j > 0 {
      SliceIsSubsequence(s[1..], 0, j - 1);
      assert s[..j][1..] == s[1..][0..j - 1];
    } else {
      EmptyIsSubsequence(s);
    }
  }

  // ---------------------------------------------------------------------
  // re.sub(r"[^a-zA-Z0-9\s]", "", value)
  // ---------------------------------------------------------------------

  /**
   * Deletes every character outside `[a-zA-Z0-9\s]`: what is left holds
   * kept characters only.
   */
  function RemoveSpecial(s: string): (r: string)
    ensures AllKept(r)
    decreases |s|
  {
    if s == [] then []
    else if IsKept(s[0]) then [s[0]] + RemoveSpecial(s[1..])
    else RemoveSpecial(s[1..])
  }

  /**
   * The filter drops exactly the other characters: each kept character
   * occurs in the result as often as in `s`, every other one not at all.
   */
  lemma {:induction false} RemoveSpecialCounts(s: string, c: char)
    ensures multiset(RemoveSpecial(s))[c] == if IsKept(c) then multiset(s)[c] else 0
    decreases |s|
  {
    if s != [] {
      assert s == [s[0]] + s[1..];
      RemoveSpecialCounts(s[1..], c);
    }
  }

  /** The filter keeps the relative order of what it keeps. */
  lemma {:induction false} RemoveSpecialIsSubsequence(s: string)
    ensures IsSubsequence(RemoveSpecial(s), s)
    decreases |s|
  {
    if s != [] {
      RemoveSpecialIsSubsequence(s[1..]);
      if IsKept(s[0]) {
        assert ([s[0]] + RemoveSpecial(s[1..]))[1..] == RemoveSpecial(s[1..]);
      }
    }
  }

  /** A string made only of kept characters passes through unchanged. */
  lemma {:induction false} RemoveSpecialKeepsKept(s: string)
    requires AllKept(s)
    ensures RemoveSpecial(s) == s
    decreases |s|
  {
    if s != [] {
      RemoveSpecialKeepsKept(s[1..]);
      assert s == [s[0]] + s[1..];
    }
  }

  /** The filter leaves `s` as it is exactly when every character is kept. */
  lemma RemoveSpecialFixpoint(s: string)
    ensures RemoveSpecial(s) == s <==> AllKept(s)
  {
    if AllKept(s) {
      RemoveSpecialKeepsKept(s);
    }
  }

  /** The filter works character by character, so it distributes over `+`. */
  lemma {:induction false} RemoveSpecialConcat(a: string, b: string)
    ensures RemoveSpecial(a + b) == RemoveSpecial(a) + RemoveSpecial(b)
    decreases |a|
  {
    if a != [] {
      assert (a + b)[1..] == a[1..] + b;
      RemoveSpecialConcat(a[1..], b);
    } else {
      assert a + b == b;
    }
  }

  // ---------------------------------------------------------------------
  // str.strip(): scan inward from both ends past whitespace, keep the rest
  // ---------------------------------------------------------------------

  /** First index at or after `i` that does not hold whitespace, or `|s|`. */
  function SkipLeading(s: string, i: nat): (k: nat)
    requires i <= |s|
    ensures i <= k <= |s|
    decreases |s| - i
  {
    if i < |s| && IsWhitespace(s[i]) then SkipLeading(s, i + 1) else i
  }

  /** Scanning down from `j` but not below `lo`: the end of the last non-whitespace character. */
  function SkipTrailing(s: string, lo: nat, j: nat): (e: nat)
    requires lo <= j <= |s|
    ensures lo <= e <= j
    decreases j
  {
    if lo < j && IsWhitespace(s[j - 1]) then SkipTrailing(s, lo, j - 1) else j
  }

  /** The leading scan passes whitespace only and stops at the first other character. */
  lemma {:induction false} SkipLeadingSpec(s: string, i: nat)
    requires i <= |s|
    ensures forall x :: i <= x < SkipLeading(s, i) ==> IsWhitespace(s[x])
    ensures SkipLeading(s, i) == |s| || !IsWhitespace(s[SkipLeading(s, i)])
    decreases |s| - i
  {
    if i < |s| && IsWhitespace(s[i]) {
      SkipLeadingSpec(s, i + 1);
    }
  }

  /** The trailing scan passes whitespace only and stops after the last other character. */
  lemma {:induction false} SkipTrailingSpec(s: string, lo: nat, j: nat)
    requires lo <= j <= |s|
    ensures forall x :: SkipTrailing(s, lo, j) <= x < j ==> IsWhitespace(s[x])
    ensures SkipTrailing(s, lo, j) == lo || !IsWhitespace(s[SkipTrailing(s, lo, j) - 1])
    decreases j
  {
    if lo < j && IsWhitespace(s[j - 1]) {
      SkipTrailingSpec(s, lo, j - 1);
    }
  }

  /**
   * `s[i..j]` is `s` with its whitespace ends cut off: only whitespace lies
   * outside the slice and none at either end of it.
   */
  predicate TrimmedAt(s: string, i: int, j: int) {
    && 0 <= i <= j <= |s|
    && (forall x :: 0 <= x < i ==> IsWhitespace(s[x]))
    && (forall x :: j <= x < |s| ==> IsWhitespace(s[x]))
    && (i < j ==> !IsWhitespace(s[i]) && !IsWhitespace(s[j - 1]))
  }

  /**
   * `str.strip()`: the result is a slice of `s` with only whitespace
   * outside it and no whitespace at either of its ends.
   */
  function Strip(s: string): (r: string)
    ensures NoEdgeWhitespace(r)
    ensures exists i, j {:trigger TrimmedAt(s, i, j)} :: TrimmedAt(s, i, j) && r == s[i..j]
  {
    var i := SkipLeading(s, 0);
    var j := SkipTrailing(s, i, |s|);
    SkipLeadingSpec(s, 0);
    SkipTrailingSpec(s, i, |s|);
    assert TrimmedAt(s, i, j);
    s[i..j]
  }

  /** There is only one place where the leading whitespace of a string ends. */
  lemma LeadingEndUnique(s: string, a: nat, b: nat)
    requires a <= |s| && b <= |s|
    requires forall x :: 0 <= x < a ==> IsWhitespace(s[x])
    requires forall x :: 0 <= x < b ==> IsWhitespace(s[x])
    requires a == |s| || !IsWhitespace(s[a])
    requires b == |s| || !IsWhitespace(s[b])
    ensures a == b
  {
  }

  /**
   * The two properties of `Strip` determine its result: every trimmed
   * slice of `s` is `Strip(s)`.
   */
  lemma StripUnique(s: string, i: int, j: int)
    requires TrimmedAt(s, i, j)
    ensures Strip(s) == s[i..j]
  {
    var k := SkipLeading(s, 0);
    SkipLeadingSpec(s, 0);
    if i == j {
      LeadingEndUnique(s, k, |s|);
    } else {
      LeadingEndUnique(s, k, i);
      var e := SkipTrailing(s, k, |s|);
      SkipTrailingSpec(s, k, |s|);
      assert e == j;
    }
  }

  /** A string with no whitespace at its ends is left as it is. */
  lemma StripFixpoint(s: string)
    ensures Strip(s) == s <==> NoEdgeWhitespace(s)
  {
    if NoEdgeWhitespace(s) {
      StripUnique(s, 0, |s|);
    }
  }

  /** Stripping a string keeps a subsequence of it. */
  lemma StripIsSubsequence(s: string)
    ensures IsSubsequence(Strip(s), s)
  {
    var r := Strip(s);
    var i: int, j: int :| TrimmedAt(s, i, j) && r == s[i..j];
    SliceIsSubsequence(s, i, j);
  }

  /** A run of whitespace holds no character that is not whitespace. */
  lemma WhitespaceRunLacks(s: string, a: nat, b: nat, c: char)
    requires a <= b <= |s| && !IsWhitespace(c)
    requires forall x :: a <= x < b ==> IsWhitespace(s[x])
    ensures multiset(s[a..b])[c] == 0
  {
    assert forall x :: 0 <= x < b - a ==> s[a..b][x] == s[a + x];
    assert c !in s[a..b];
  }

  /** Stripping removes whitespace only: every other character keeps its count. */
  lemma StripKeepsNonWhitespace(s: string, c: char)
    requires !IsWhitespace(c)
    ensures multiset(Strip(s))[c] == multiset(s)[c]
  {
    var r := Strip(s);
    var i: int, j: int :| TrimmedAt(s, i, j) && r == s[i..j];
    assert s == s[..i] + s[i..j] + s[j..];
    WhitespaceRunLacks(s, 0, i, c);
    WhitespaceRunLacks(s, j, |s|, c);
    assert s[..i] == s[0..i] && s[j..] == s[j..|s|];
  }

  // ---------------------------------------------------------------------
  // sanitize_string
  // ---------------------------------------------------------------------

  /** `sanitize_string(value)`: the substitution followed by `strip()`. */
  function SanitizeString(value: string): (r: string)
    ensures AllKept(r)
    ensures NoEdgeWhitespace(r)
  {
    Strip(RemoveSpecial(value))
  }

  /** The sanitized string keeps the relative order of what it keeps and never grows. */
  lemma SanitizeIsSubsequence(value: string)
    ensures IsSubsequence(SanitizeString(value), value)
    ensures |SanitizeString(value)| <= |value|
  {
    var f := RemoveSpecial(value);
    RemoveSpecialIsSubsequence(value);
    StripIsSubsequence(f);
    SubsequenceTrans(Strip(f), f, value);
    SubsequenceLength(SanitizeString(value), value);
  }

  /** Every ASCII letter and digit of the input survives, as often as it occurs. */
  lemma SanitizeKeepsAlphanumerics(value: string, c: char)
    requires IsAsciiLetter(c) || IsAsciiDigit(c)
    ensures multiset(SanitizeString(value))[c] == multiset(value)[c]
  {
    RemoveSpecialCounts(value, c);
    StripKeepsNonWhitespace(RemoveSpecial(value), c);
  }

  /**
   * No character outside `[a-zA-Z0-9\s]` survives: a corollary of the
   * alphabet `SanitizeString` guarantees for its result.
   */
  lemma SanitizeDropsSpecials(value: string, c: char)
    requires !IsKept(c)
    ensures multiset(SanitizeString(value))[c] == 0
  {
  }

  /** When the filter leaves no whitespace at either end, stripping changes nothing. */
  lemma SanitizeWithoutEdgeWhitespace(value: string)
    requires NoEdgeWhitespace(RemoveSpecial(value))
    ensures SanitizeString(value) == RemoveSpecial(value)
  {
    StripFixpoint(RemoveSpecial(value));
  }

  /** A string of kept characters with no whitespace at its ends is returned as it is. */
  lemma SanitizeKeepsClean(value: string)
    requires AllKept(value) && NoEdgeWhitespace(value)
    ensures SanitizeString(value) == value
  {
    RemoveSpecialKeepsKept(value);
    SanitizeWithoutEdgeWhitespace(value);
  }

  /**
   * The fixed points of `sanitize_string`: it returns its input unchanged
   * exactly when every character is kept and neither end is whitespace.
   */
  lemma SanitizeFixpoint(value: string)
    ensures SanitizeString(value) == value <==> AllKept(value) && NoEdgeWhitespace(value)
  {
    if AllKept(value) && NoEdgeWhitespace(value) {
      SanitizeKeepsClean(value);
    }
  }

  /** Sanitizing twice is sanitizing once. */
  lemma SanitizeIdempotent(value: string)
    ensures SanitizeString(SanitizeString(value)) == SanitizeString(value)
  {
    SanitizeKeepsClean(SanitizeString(value));
  }

  // ---------------------------------------------------------------------
  // validate_input
  // ---------------------------------------------------------------------

  /** `validate_input(value, default)`: the value when present, else the default. */
  function ValidateInput<T>(value: Option<T>, default: T): (r: T)
    ensures value.Some? ==> r == value.value
    ensures value.None? ==> r == default
  {
    match value
    case Some(v) => v
    case None => default
  }

  /**
   * The default comes back exactly when the value is missing or is itself
   * equal to the default: a present value is never replaced.
   */
  lemma ValidateInputIsDefault<T>(value: Option<T>, default: T)
    ensures ValidateInput(value, default) == default <==> value.None? || value.value == default
  {
  }
}
