/**
 * The few pieces of `java.lang.String` and Spring's `StringUtils` that the
 * catalog service relies on. A Java string is modelled as a sequence of
 * characters.
 */
module JavaStrings {
  import opened Nullable

  /** `s != null && !s.isEmpty()`: the presence test of `filterProducts`. */
  predicate NotEmpty(s: Option<string>) {
    s.Some? && |s.value| > 0
  }

  /** `Character.isWhitespace(c)`: the Unicode space, line and paragraph
      separators other than the three no-break spaces, plus the ASCII
      controls U+0009..U+000D and U+001C..U+001F. */
  predicate IsJavaWhitespace(c: char) {
    || ('\t' <= c <= '\r')
    || ('\U{1C}' <= c <= ' ')
    || c == '\U{1680}'
    || ('\U{2000}' <= c <= '\U{2006}')
    || ('\U{2008}' <= c <= '\U{200A}')
    || c == '\U{2028}' || c == '\U{2029}'
    || c == '\U{205F}' || c == '\U{3000}'
  }

  /** Spring's `StringUtils.hasText(s)`: non-null and holding at least one
      character that is not Java whitespace. */
  predicate HasText(s: Option<string>) {
    s.Some? && exists i | 0 <= i < |s.value| :: !IsJavaWhitespace(s.value[i])
  }

  /** A character `String.trim()` strips: any code point up to U+0020. */
  predicate IsTrimmable(c: char) {
    c <= ' '
  }

  /** The end of the run of trimmable characters of `s` that starts at `i`. */
  function TrimmedPrefix(s: string, i: nat): (n: nat)
    requires i <= |s|
    ensures i <= n <= |s|
    ensures forall k :: i <= k < n ==> IsTrimmable(s[k])
    ensures n == |s| || !IsTrimmable(s[n])
    decreases |s| - i
  {
    if i < |s| && IsTrimmable(s[i]) then TrimmedPrefix(s, i + 1) else i
  }

  /** The start of the run of trimmable characters of `s` that ends at `j`,
      going back no further than `lo`. */
  function TrimmedSuffix(s: string, lo: nat, j: nat): (m: nat)
    requires lo <= j <= |s|
    ensures lo <= m <= j
    ensures forall k :: m <= k < j ==> IsTrimmable(s[k])
    ensures m == lo || !IsTrimmable(s[m - 1])
  {
    if j > lo && IsTrimmable(s[j - 1]) then TrimmedSuffix(s, lo, j - 1) else j
  }

  /** `pattern` occurs in `s` starting at position `i`. */
  predicate OccursAt(s: string, pattern: string, i: int) {
    0 <= i <= |s| - |pattern| && s[i..i + |pattern|] == pattern
  }

  /** `r` is `s` with `i` trimmable characters cut from the front and only
      trimmable characters cut from the back. */
  predicate TrimmedAt(s: string, r: string, i: int) {
    && OccursAt(s, r, i)
    && (forall k :: 0 <= k < i ==> IsTrimmable(s[k]))
    && (forall k :: i + |r| <= k < |s| ==> IsTrimmable(s[k]))
  }

  /** `s.trim()`: `s` without its leading and trailing trimmable characters. */
  function Trim(s: string): (r: string)
    ensures exists i :: TrimmedAt(s, r, i)
    ensures |r| == 0 || (!IsTrimmable(r[0]) && !IsTrimmable(r[|r| - 1]))
  {
    var i := TrimmedPrefix(s, 0);
    var j := TrimmedSuffix(s, i, |s|);
    assert TrimmedAt(s, s[i..j], i);
    s[i..j]
  }

  /** A string with no trimmable character at either end is its own trim. */
  lemma TrimKeepsTrimmed(s: string)
    requires |s| > 0 ==> !IsTrimmable(s[0]) && !IsTrimmable(s[|s| - 1])
    ensures Trim(s) == s
  {
  }

  /** `s.trim().isEmpty()` holds exactly for strings made only of trimmable
      characters. */
  lemma TrimEmptyIffBlank(s: string)
    ensures |Trim(s)| == 0 <==> forall k :: 0 <= k < |s| ==> IsTrimmable(s[k])
  {
    if |Trim(s)| == 0 {
      var i := TrimmedPrefix(s, 0);
      var j := TrimmedSuffix(s, i, |s|);
      assert Trim(s) == s[i..j];
    } else {
      assert !IsTrimmable(Trim(s)[0]);
    }
  }

  /** `s` contains `pattern` as a contiguous substring. */
  predicate Contains(s: string, pattern: string)
    decreases |s|
  {
    pattern <= s || (|s| > 0 && Contains(s[1..], pattern))
  }

  /** `Contains` agrees with the positional reading of a substring. */
  lemma {:induction false} ContainsIffOccurs(s: string, pattern: string)
    ensures Contains(s, pattern) <==> exists i :: OccursAt(s, pattern, i)
    decreases |s|
  {
    if exists i :: OccursAt(s, pattern, i) {
      var i :| OccursAt(s, pattern, i);
      if i > 0 {
        assert OccursAt(s[1..], pattern, i - 1);
        ContainsIffOccurs(s[1..], pattern);
      }
    }
    if pattern <= s {
      assert OccursAt(s, pattern, 0);
    } else if Contains(s, pattern) {
      ContainsIffOccurs(s[1..], pattern);
      var i :| OccursAt(s[1..], pattern, i);
      assert OccursAt(s, pattern, i + 1);
    }
  }

  /** `"asc".equalsIgnoreCase(s)`. Java compares character by character,
      first through `toUpperCase` and then through `toLowerCase`; the only
      non-ASCII character that passes is U+017F LATIN SMALL LETTER LONG S,
      whose upper case is `S`. */
  predicate IsAscKeyword(s: string) {
    && |s| == 3
    && (s[0] == 'a' || s[0] == 'A')
    && (s[1] == 's' || s[1] == 'S' || s[1] == '\U{17F}')
    && (s[2] == 'c' || s[2] == 'C')
  }

  /** `"asc".equalsIgnoreCase(order)`, which is false for a null order. */
  predicate IsAscending(order: Option<string>) {
    order.Some? && IsAscKeyword(order.value)
  }

  /** Lower-cases an ASCII letter and leaves every other character. */
  function LowerChar(c: char): char {
    if 'A' <= c <= 'Z' then c - 'A' + 'a' else c
  }

  /** Lower-cases the ASCII letters of `s` and leaves every other character. */
  function AsciiLower(s: string): (r: string)
    ensures |r| == |s|
    ensures forall k :: 0 <= k < |s| ==> r[k] == LowerChar(s[k])
  {
    if |s| == 0 then []
    else [LowerChar(s[0])] + AsciiLower(s[1..])
  }

  /** A string without upper-case ASCII letters is its own lower case. */
  lemma AsciiLowerKeepsLower(s: string)
    requires forall k :: 0 <= k < |s| ==> !('A' <= s[k] <= 'Z')
    ensures AsciiLower(s) == s
  {
  }

  /** Three characters that lower-case to "asc" spell the ascending
      keyword. */
  lemma AscFromLowerChars(a: char, b: char, c: char)
    requires LowerChar(a) == 'a' && LowerChar(b) == 's' && LowerChar(c) == 'c'
    ensures IsAscKeyword([a, b, c])
  {
  }

  /** Every ASCII spelling of "asc", in any mix of cases, is accepted as the
      ascending keyword, and nothing of another length is. */
  lemma AscKeywordAcceptsAsciiCase(s: string)
    ensures AsciiLower(s) == "asc" ==> IsAscKeyword(s)
    ensures |s| != 3 ==> !IsAscKeyword(s)
  {
    if AsciiLower(s) == "asc" {
      var l := AsciiLower(s);
      assert |s| == 3 && l[0] == 'a' && l[1] == 's' && l[2] == 'c';
      assert s == [s[0], s[1], s[2]];
      AscFromLowerChars(s[0], s[1], s[2]);
    }
  }
}
