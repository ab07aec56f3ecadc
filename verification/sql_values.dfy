/**
 * Column values as the database sees them, with SQL's treatment of NULL:
 * a comparison against NULL is never true in a WHERE clause, and ORDER BY
 * places NULL below every other value (first when ascending, last when
 * descending), as MySQL does.
 */
module SqlValues {
  import opened Nullable
  import JavaStrings

  datatype SqlValue = Null | Num(n: real) | Text(t: string)

  function OfInt(o: Option<int>): SqlValue {
    match o
    case Some(v) => Num(v as real)
    case None => Null
  }

  function OfReal(o: Option<real>): SqlValue {
    match o
    case Some(v) => Num(v)
    case None => Null
  }

  function OfText(o: Option<string>): SqlValue {
    match o
    case Some(v) => Text(v)
    case None => Null
  }

  /** Lexicographic order on strings, by character code. */
  predicate TextLe(a: string, b: string)
    decreases |a|
  {
    |a| == 0 || (|b| > 0 && (a[0] < b[0] || (a[0] == b[0] && TextLe(a[1..], b[1..]))))
  }

  /** The ORDER BY relation: NULL lowest, numbers by value, text
      lexicographically (a column never mixes numbers and text). */
  predicate ValueLe(a: SqlValue, b: SqlValue) {
    match (a, b)
    case (Null, _) => true
    case (_, Null) => false
    case (Num(x), Num(y)) => x <= y
    case (Num(_), Text(_)) => true
    case (Text(_), Num(_)) => false
    case (Text(s), Text(t)) => TextLe(s, t)
  }

  lemma {:induction false} TextLeTotal(a: string, b: string)
    ensures TextLe(a, b) || TextLe(b, a)
    decreases |a|
  {
    if |a| > 0 && |b| > 0 && a[0] == b[0] {
      TextLeTotal(a[1..], b[1..]);
    }
  }

  lemma {:induction false} TextLeTransitive(a: string, b: string, c: string)
    requires TextLe(a, b) && TextLe(b, c)
    ensures TextLe(a, c)
    decreases |a|
  {
    if |a| > 0 && a[0] == b[0] && b[0] == c[0] {
      TextLeTransitive(a[1..], b[1..], c[1..]);
    }
  }

  /** ValueLe is a total preorder, so sorting by it is well defined. */
  lemma ValueLeTotal(a: SqlValue, b: SqlValue)
    ensures ValueLe(a, b) || ValueLe(b, a)
  {
    if a.Text? && b.Text? {
      TextLeTotal(a.t, b.t);
    }
  }

  lemma ValueLeTransitive(a: SqlValue, b: SqlValue, c: SqlValue)
    requires ValueLe(a, b) && ValueLe(b, c)
    ensures ValueLe(a, c)
  {
    if a.Text? && b.Text? && c.Text? {
      TextLeTransitive(a.t, b.t, c.t);
    }
  }

  /** `col = v` in a WHERE clause: true only when both sides are non-null
      and equal. */
  predicate SqlEq(col: SqlValue, v: SqlValue) {
    !col.Null? && !v.Null? && col == v
  }

  /** `col <> v`: true only when both sides are non-null and different. */
  predicate SqlNe(col: SqlValue, v: SqlValue) {
    !col.Null? && !v.Null? && col != v
  }

  /** `lo <= hi` between two values of the same kind; false when either is
      NULL or when they are of different kinds. */
  predicate SqlLe(lo: SqlValue, hi: SqlValue) {
    match (lo, hi)
    case (Num(x), Num(y)) => x <= y
    case (Text(s), Text(t)) => TextLe(s, t)
    case _ => false
  }

  /** `col NOT IN (vs)`: true only when `col` is non-null, no listed value is
      NULL and none equals it. */
  predicate SqlNotIn(col: SqlValue, vs: seq<SqlValue>) {
    !col.Null? && Null !in vs && col !in vs
  }

  /** `col IN (vs)`: true only when `col` is non-null and listed. */
  predicate SqlIn(col: SqlValue, vs: seq<SqlValue>) {
    !col.Null? && col in vs
  }

  /** A character MySQL's lexer skips between tokens: the space and the
      controls U+0009..U+000D. Other controls are not blanks to it. */
  predicate IsSqlSpace(c: char) {
    c == ' ' || '\t' <= c <= '\r'
  }

  /** The end of the run of blanks of `s` that starts at `i`. */
  function BlankPrefix(s: string, i: nat): (n: nat)
    requires i <= |s|
    ensures i <= n <= |s|
    ensures forall k :: i <= k < n ==> IsSqlSpace(s[k])
    ensures n == |s| || !IsSqlSpace(s[n])
    decreases |s| - i
  {
    if i < |s| && IsSqlSpace(s[i]) then BlankPrefix(s, i + 1) else i
  }

  /** The start of the run of blanks of `s` that ends at `j`, going back no
      further than `lo`. */
  function BlankSuffix(s: string, lo: nat, j: nat): (m: nat)
    requires lo <= j <= |s|
    ensures lo <= m <= j
    ensures forall k :: m <= k < j ==> IsSqlSpace(s[k])
    ensures m == lo || !IsSqlSpace(s[m - 1])
  {
    if j > lo && IsSqlSpace(s[j - 1]) then BlankSuffix(s, lo, j - 1) else j
  }

  /** `r` is `s` with `i` blanks cut from the front and only blanks cut
      from the back. */
  predicate StrippedAt(s: string, r: string, i: int) {
    && JavaStrings.OccursAt(s, r, i)
    && (forall k :: 0 <= k < i ==> IsSqlSpace(s[k]))
    && (forall k :: i + |r| <= k < |s| ==> IsSqlSpace(s[k]))
  }

  /** The token the lexer reads from `s`: `s` without its leading and
      trailing blanks. */
  function StripSpace(s: string): (r: string)
    ensures exists i :: StrippedAt(s, r, i)
    ensures |r| == 0 || (!IsSqlSpace(r[0]) && !IsSqlSpace(r[|r| - 1]))
  {
    var i := BlankPrefix(s, 0);
    var j := BlankSuffix(s, i, |s|);
    assert StrippedAt(s, s[i..j], i);
    s[i..j]
  }

  /** A string with no blank at either end is its own token. */
  lemma StripSpaceKeepsToken(s: string)
    requires |s| > 0 ==> !IsSqlSpace(s[0]) && !IsSqlSpace(s[|s| - 1])
    ensures StripSpace(s) == s
  {
  }

  /** The token is empty exactly when `s` is all blanks. */
  lemma StripSpaceEmptyIffBlank(s: string)
    ensures |StripSpace(s)| == 0 <==> forall k :: 0 <= k < |s| ==> IsSqlSpace(s[k])
  {
    if |StripSpace(s)| == 0 {
      var i := BlankPrefix(s, 0);
      var j := BlankSuffix(s, i, |s|);
      assert StripSpace(s) == s[i..j];
    } else {
      assert !IsSqlSpace(StripSpace(s)[0]);
    }
  }

  /** A lower-case letter or an underscore. */
  predicate IsIdentifierChar(c: char) {
    'a' <= c <= 'z' || c == '_'
  }

  /** A lower-case identifier is unchanged by stripping and lower-casing. */
  lemma IdentifierIsNormal(s: string)
    requires forall k :: 0 <= k < |s| ==> IsIdentifierChar(s[k])
    ensures JavaStrings.AsciiLower(StripSpace(s)) == s
  {
    StripSpaceKeepsToken(s);
    JavaStrings.AsciiLowerKeepsLower(s);
  }
}
