/**
 * The catalog queries of `ProductServiceImpl`: optional criteria become a
 * list of WHERE clauses, all of which a row must satisfy; the store returns
 * the matching rows (ordered when asked) and covers are attached.
 */
module ProductQuery {
  import opened Nullable
  import opened SqlValues
  import opened JavaStrings
  import opened Entities
  import opened RowOrder
  import opened CoverImage

  /** One condition of a query wrapper, on one column. */
  datatype Clause =
    | Like(col: ProductColumn, text: string)           // col LIKE '%text%'
    | Eq(col: ProductColumn, value: SqlValue)          // col = value
    | Ne(col: ProductColumn, value: SqlValue)          // col <> value
    | Ge(col: ProductColumn, value: SqlValue)          // col >= value
    | Le(col: ProductColumn, value: SqlValue)          // col <= value
    | In(col: ProductColumn, values: seq<SqlValue>)    // col IN (values)
    | NotIn(col: ProductColumn, values: seq<SqlValue>) // col NOT IN (values)

  /** Whether a row satisfies a clause; a NULL column satisfies none. */
  predicate Holds(p: Product, c: Clause) {
    var v := ColumnValue(p, c.col);
    match c
    case Like(_, text) => v.Text? && Contains(v.t, text)
    case Eq(_, w) => SqlEq(v, w)
    case Ne(_, w) => SqlNe(v, w)
    case Ge(_, w) => SqlLe(w, v)
    case Le(_, w) => SqlLe(v, w)
    case In(_, ws) => SqlIn(v, ws)
    case NotIn(_, ws) => SqlNotIn(v, ws)
  }

  /** The clauses of one wrapper are joined with AND. */
  predicate HoldsAll(p: Product, clauses: seq<Clause>) {
    forall i :: 0 <= i < |clauses| ==> Holds(p, clauses[i])
  }

  lemma HoldsAllAppend(p: Product, a: seq<Clause>, b: seq<Clause>)
    ensures HoldsAll(p, a + b) <==> HoldsAll(p, a) && HoldsAll(p, b)
  {
    if HoldsAll(p, a) && HoldsAll(p, b) {
      forall i | 0 <= i < |a + b| ensures Holds(p, (a + b)[i]) {
        if i >= |a| {
          assert (a + b)[i] == b[i - |a|];
        }
      }
    }
    if HoldsAll(p, a + b) {
      forall i | 0 <= i < |a| ensures Holds(p, a[i]) {
        assert (a + b)[i] == a[i];
      }
      forall i | 0 <= i < |b| ensures Holds(p, b[i]) {
        assert (a + b)[|a| + i] == b[i];
      }
    }
  }

  /** `selectList(wrapper)`: the rows satisfying every clause, in store
      order. */
  function Select(store: seq<Product>, clauses: seq<Clause>): (r: seq<Product>)
    ensures |r| <= |store|
    ensures forall i :: 0 <= i < |r| ==> r[i] in store && HoldsAll(r[i], clauses)
    ensures forall i :: 0 <= i < |store| && HoldsAll(store[i], clauses) ==> store[i] in r
    ensures forall p :: multiset(r)[p] == if HoldsAll(p, clauses) then multiset(store)[p] else 0
  {
    Where(store, p => HoldsAll(p, clauses))
  }

  /** An empty wrapper selects the whole store. */
  lemma {:induction false} SelectNothingIsAll(store: seq<Product>)
    ensures Select(store, []) == store
  {
    if |store| > 0 {
      SelectNothingIsAll(store[1..]);
      assert store == [store[0]] + store[1..];
    }
  }

  /** The filter parameters; every one may be null. */
  datatype Criteria = Criteria(
    name: Option<string>,
    category: Option<string>,
    status: Option<string>,
    minPrice: Option<real>,
    maxPrice: Option<real>,
    minRating: Option<real>)

  /** How a text parameter is judged present: `filterProducts` asks for a
      non-empty string, `filterProductsWithSorting` for `hasText`. */
  datatype TextTest = NonEmptyTest | HasTextTest

  predicate Present(s: Option<string>, test: TextTest) {
    match test
    case NonEmptyTest => NotEmpty(s)
    case HasTextTest => HasText(s)
  }

  function Optional(present: bool, c: Clause): seq<Clause> {
    if present then [c] else []
  }

  lemma HoldsOptional(p: Product, present: bool, c: Clause)
    ensures HoldsAll(p, Optional(present, c)) <==> (present ==> Holds(p, c))
  {
    if present {
      assert Optional(present, c)[0] == c;
    }
  }

  /** One clause per present parameter, nothing for an absent one. */
  function CriteriaClauses(c: Criteria, test: TextTest): seq<Clause> {
    Optional(Present(c.name, test), Like(NameColumn, c.name.GetOr("")))
    + Optional(Present(c.category, test), Eq(CategoryColumn, OfText(c.category)))
    + Optional(Present(c.status, test), Eq(StatusColumn, OfText(c.status)))
    + Optional(c.minPrice.Some?, Ge(PriceColumn, OfReal(c.minPrice)))
    + Optional(c.maxPrice.Some?, Le(PriceColumn, OfReal(c.maxPrice)))
    + Optional(c.minRating.Some?, Ge(RatingColumn, OfReal(c.minRating)))
  }

  /** What the criteria mean for a single product, field by field. */
  predicate MeetsCriteria(p: Product, c: Criteria, test: TextTest) {
    && (Present(c.name, test) ==> p.name.Some? && Contains(p.name.value, c.name.value))
    && (Present(c.category, test) ==> p.category == c.category)
    && (Present(c.status, test) ==> p.status == c.status)
    && (c.minPrice.Some? ==> p.price.Some? && c.minPrice.value <= p.price.value)
    && (c.maxPrice.Some? ==> p.price.Some? && p.price.value <= c.maxPrice.value)
    && (c.minRating.Some? ==> p.rating.Some? && c.minRating.value <= p.rating.value)
  }

  /** The conjunction of the built clauses is exactly the field-by-field
      reading of the criteria. */
  lemma CriteriaClausesMeaning(p: Product, c: Criteria, test: TextTest)
    ensures HoldsAll(p, CriteriaClauses(c, test)) <==> MeetsCriteria(p, c, test)
  {
    var a := Optional(Present(c.name, test), Like(NameColumn, c.name.GetOr("")));
    var b := Optional(Present(c.category, test), Eq(CategoryColumn, OfText(c.category)));
    var d := Optional(Present(c.status, test), Eq(StatusColumn, OfText(c.status)));
    var e := Optional(c.minPrice.Some?, Ge(PriceColumn, OfReal(c.minPrice)));
    var f := Optional(c.maxPrice.Some?, Le(PriceColumn, OfReal(c.maxPrice)));
    var g := Optional(c.minRating.Some?, Ge(RatingColumn, OfReal(c.minRating)));
    HoldsAllAppend(p, a, b);
    HoldsAllAppend(p, a + b, d);
    HoldsAllAppend(p, a + b + d, e);
    HoldsAllAppend(p, a + b + d + e, f);
    HoldsAllAppend(p, a + b + d + e + f, g);
    HoldsOptional(p, Present(c.name, test), Like(NameColumn, c.name.GetOr("")));
    HoldsOptional(p, Present(c.category, test), Eq(CategoryColumn, OfText(c.category)));
    HoldsOptional(p, Present(c.status, test), Eq(StatusColumn, OfText(c.status)));
    HoldsOptional(p, c.minPrice.Some?, Ge(PriceColumn, OfReal(c.minPrice)));
    HoldsOptional(p, c.maxPrice.Some?, Le(PriceColumn, OfReal(c.maxPrice)));
    HoldsOptional(p, c.minRating.Some?, Ge(RatingColumn, OfReal(c.minRating)));
  }

  /** Absent parameters add no clause: with none present the wrapper is
      empty. */
  lemma NoCriteriaNoClauses(c: Criteria, test: TextTest)
    requires !Present(c.name, test) && !Present(c.category, test) && !Present(c.status, test)
    requires c.minPrice.None? && c.maxPrice.None? && c.minRating.None?
    ensures CriteriaClauses(c, test) == []
  {
  }

  /** The rows a criteria query selects, in store order. */
  function MatchingRows(store: seq<Product>, c: Criteria, test: TextTest): (r: seq<Product>)
    ensures |r| <= |store|
    ensures forall i :: 0 <= i < |r| ==> r[i] in store && MeetsCriteria(r[i], c, test)
    ensures forall i :: 0 <= i < |store| && MeetsCriteria(store[i], c, test) ==> store[i] in r
    ensures forall p :: multiset(r)[p] == if MeetsCriteria(p, c, test) then multiset(store)[p] else 0
  {
    var clauses := CriteriaClauses(c, test);
    forall p ensures HoldsAll(p, clauses) <==> MeetsCriteria(p, c, test) {
      CriteriaClausesMeaning(p, c, test);
    }
    Select(store, clauses)
  }

  /** Attaching covers keeps every row meeting the criteria it met. */
  lemma CoversKeepCriteria(media: seq<ProductMedia>, rows: seq<Product>, c: Criteria, test: TextTest)
    requires forall i :: 0 <= i < |rows| ==> MeetsCriteria(rows[i], c, test)
    ensures forall i :: 0 <= i < |SetCoverImages(media, rows)| ==>
      MeetsCriteria(SetCoverImages(media, rows)[i], c, test)
  {
    var r := SetCoverImages(media, rows);
    forall i | 0 <= i < |r| ensures MeetsCriteria(r[i], c, test) {
      assert Persisted(r[i]) == Persisted(rows[i]);
    }
  }

  /** `filterProducts`: the rows meeting every present criterion (a text
      criterion counts as present when non-null and non-empty), in store
      order, with their covers. */
  function FilterProducts(store: seq<Product>, media: seq<ProductMedia>, c: Criteria): (r: seq<Product>)
    requires FromTable(store)
    ensures PersistedRows(r) == PersistedRows(MatchingRows(store, c, NonEmptyTest))
    ensures forall i :: 0 <= i < |r| ==> MeetsCriteria(r[i], c, NonEmptyTest)
    ensures HasCoversOf(r, media, MatchingRows(store, c, NonEmptyTest))
  {
    var rows := MatchingRows(store, c, NonEmptyTest);
    CoversKeepRows(media, rows);
    CoversKeepCriteria(media, rows, c, NonEmptyTest);
    SetCoverImages(media, rows)
  }

  /** With every criterion absent, the whole store is returned. */
  lemma FilterWithoutCriteriaIsStore(store: seq<Product>, c: Criteria, test: TextTest)
    requires !Present(c.name, test) && !Present(c.category, test) && !Present(c.status, test)
    requires c.minPrice.None? && c.maxPrice.None? && c.minRating.None?
    ensures MatchingRows(store, c, test) == store
  {
    NoCriteriaNoClauses(c, test);
    SelectNothingIsAll(store);
  }

  /** An inverted price range selects nothing. */
  lemma InvertedPriceRangeIsEmpty(store: seq<Product>, c: Criteria, test: TextTest)
    requires c.minPrice.Some? && c.maxPrice.Some? && c.minPrice.value > c.maxPrice.value
    ensures MatchingRows(store, c, test) == []
  {
    var pred := (p: Product) => HoldsAll(p, CriteriaClauses(c, test));
    forall i | 0 <= i < |store| ensures !pred(store[i]) {
      CriteriaClausesMeaning(store[i], c, test);
    }
    WhereNone(store, pred);
  }

  /** A whitespace-only name is a criterion for `filterProducts` (it must
      then occur in the name) but not for `filterProductsWithSorting`. */
  lemma BlankNameDiffers()
    ensures Present(Some(" "), NonEmptyTest)
    ensures !Present(Some(" "), HasTextTest)
  {
    assert IsJavaWhitespace(" "[0]);
  }

  predicate NameContains(p: Product, word: string) {
    p.name.Some? && Contains(p.name.value, word)
  }

  /** The rows of the keyword search for a non-blank trimmed `word`. */
  function SearchRows(store: seq<Product>, word: string): (r: seq<Product>)
    ensures |r| <= |store|
    ensures forall i :: 0 <= i < |r| ==> r[i] in store && NameContains(r[i], word)
    ensures forall i :: 0 <= i < |store| && NameContains(store[i], word) ==> store[i] in r
    ensures forall p :: multiset(r)[p] == if NameContains(p, word) then multiset(store)[p] else 0
  {
    var clauses := [Like(NameColumn, word)];
    forall p ensures HoldsAll(p, clauses) <==> NameContains(p, word) {
      assert clauses[0] == Like(NameColumn, word);
    }
    Select(store, clauses)
  }

  /** `searchProducts`: a null or blank keyword gives nothing; otherwise
      the rows whose name contains the trimmed keyword, with covers. */
  function SearchProducts(store: seq<Product>, media: seq<ProductMedia>, keyword: Option<string>): (r: seq<Product>)
    requires FromTable(store)
    ensures keyword.None? || (forall k :: 0 <= k < |keyword.value| ==> IsTrimmable(keyword.value[k])) ==> r == []
    ensures keyword.Some? && |Trim(keyword.value)| > 0 ==>
      && PersistedRows(r) == PersistedRows(SearchRows(store, Trim(keyword.value)))
      && (forall i :: 0 <= i < |r| ==> NameContains(r[i], Trim(keyword.value)))
      && HasCoversOf(r, media, SearchRows(store, Trim(keyword.value)))
  {
    if keyword.None? then []
    else
      var word := Trim(keyword.value);
      TrimEmptyIffBlank(keyword.value);
      if |word| == 0 then []
      else
        var rows := SearchRows(store, word);
        CoversKeepRows(media, rows);
        var r := SetCoverImages(media, rows);
        assert forall i :: 0 <= i < |r| ==> Persisted(r[i]) == Persisted(rows[i]);
        r
  }

  /** The query of `filterProductsWithSorting` as the store runs it: the
      matching rows, ordered by `sortBy` when it has text, or `None` when
      that text names no column and the database rejects the query. */
  function SortedMatchingRows(store: seq<Product>, c: Criteria, sortBy: Option<string>, order: Option<string>): (r: Option<seq<Product>>)
    ensures r.None? <==> HasText(sortBy) && ResolveColumn(sortBy.value).None?
    ensures r.Some? ==> multiset(r.value) == multiset(MatchingRows(store, c, HasTextTest))
    ensures r.Some? && !HasText(sortBy) ==> r.value == MatchingRows(store, c, HasTextTest)
    ensures r.Some? && HasText(sortBy) ==>
      SortedBy(r.value, ColumnKey(ResolveColumn(sortBy.value).value), IsAscending(order))
  {
    var rows := MatchingRows(store, c, HasTextTest);
    if !HasText(sortBy) then Some(rows)
    else
      match ResolveColumn(sortBy.value)
      case None => None
      case Some(col) =>
        SortSorted(rows, ColumnKey(col), IsAscending(order));
        Some(Sort(rows, ColumnKey(col), IsAscending(order)))
  }

  /** The outcome of `filterProductsWithSorting` before the page is cut:
      all matching rows in query order and their count, or the database's
      rejection of a sort column that names no column. */
  datatype SortedResult =
    | Rows(records: seq<Product>, total: nat)
    | UnknownSortColumn(sortBy: string)

  /** `filterProductsWithSorting`. Text criteria count only when they have
      text; `sortBy` is used as a column name only when it has text, in
      ascending order iff `order` is "asc" in any case, otherwise
      descending. */
  function FilterProductsWithSorting(
    store: seq<Product>, media: seq<ProductMedia>, c: Criteria,
    sortBy: Option<string>, order: Option<string>): (r: SortedResult)
    requires FromTable(store)
    ensures r.UnknownSortColumn? <==> HasText(sortBy) && ResolveColumn(sortBy.value).None?
    ensures r.Rows? ==> r.total == |r.records|
    ensures r.Rows? ==> forall i :: 0 <= i < |r.records| ==> MeetsCriteria(r.records[i], c, HasTextTest)
    ensures r.Rows? ==> PersistedRows(r.records) == PersistedRows(SortedMatchingRows(store, c, sortBy, order).value)
    ensures r.Rows? && HasText(sortBy) ==>
      SortedBy(r.records, ColumnKey(ResolveColumn(sortBy.value).value), IsAscending(order))
    ensures r.Rows? ==> HasCoversOf(r.records, media, SortedMatchingRows(store, c, sortBy, order).value)
  {
    match SortedMatchingRows(store, c, sortBy, order)
    case None => UnknownSortColumn(sortBy.value)
    case Some(rows) =>
      assert forall i :: 0 <= i < |rows| ==> rows[i] in multiset(MatchingRows(store, c, HasTextTest));
      CoversKeepRows(media, rows);
      CoversKeepCriteria(media, rows, c, HasTextTest);
      if HasText(sortBy) then
        CoversKeepOrder(media, rows, ResolveColumn(sortBy.value).value, IsAscending(order));
        Rows(SetCoverImages(media, rows), |rows|)
      else
        Rows(SetCoverImages(media, rows), |rows|)
  }

  /** Attaching covers keeps a column ordering. */
  lemma CoversKeepOrder(media: seq<ProductMedia>, rows: seq<Product>, col: ProductColumn, asc: bool)
    requires SortedBy(rows, ColumnKey(col), asc)
    ensures SortedBy(SetCoverImages(media, rows), ColumnKey(col), asc)
  {
    var r := SetCoverImages(media, rows);
    forall i | 0 <= i < |r| ensures ColumnKey(col)(r[i]) == ColumnKey(col)(rows[i]) {
      ColumnIgnoresCover(r[i], col);
      ColumnIgnoresCover(rows[i], col);
    }
  }
}
