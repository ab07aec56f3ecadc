/**
 * The two recommendation queries of `ProductServiceImpl`: products related
 * to an anchor product, and top-rated products of the category a user buys
 * most. Both order by rating, highest first (NULL ratings last), and stop
 * after `limit` rows.
 */
module Recommendation {
  import opened Nullable
  import opened SqlValues
  import opened Entities
  import opened RowOrder
  import opened CoverImage
  import opened ProductQuery

  /** `selectById(id)`: the row with that primary key; a null id matches
      nothing. */
  function SelectById(store: seq<Product>, id: Option<int>): (r: Option<Product>)
    ensures r.Some? ==> r.value in store && id.Some? && r.value.id == id
    ensures r.None? ==> id.None? || forall k :: 0 <= k < |store| ==> store[k].id != id
  {
    if id.None? || |store| == 0 then None
    else if store[0].id == id then Some(store[0])
    else SelectById(store[1..], id)
  }

  /** `ORDER BY rating DESC LIMIT limit`. */
  function TopRated(rows: seq<Product>, limit: nat): (r: seq<Product>)
    ensures IsOrderedTopK(r, rows, ColumnKey(RatingColumn), false, limit)
  {
    TopK(rows, ColumnKey(RatingColumn), false, limit)
  }

  /** The clauses of the related-products query: same category as the
      anchor, and an id other than the anchor's. */
  function RelatedClauses(category: string, productId: Option<int>): seq<Clause> {
    [Eq(CategoryColumn, Text(category)), Ne(IdColumn, OfInt(productId))]
  }

  predicate IsRelated(p: Product, category: string, productId: int) {
    p.category == Some(category) && p.id.Some? && p.id.value != productId
  }

  lemma RelatedClausesMeaning(p: Product, category: string, productId: int)
    ensures HoldsAll(p, RelatedClauses(category, Some(productId))) <==> IsRelated(p, category, productId)
  {
    var cl := RelatedClauses(category, Some(productId));
    assert cl[0] == Eq(CategoryColumn, Text(category));
    assert cl[1] == Ne(IdColumn, Num(productId as real));
  }

  /** The rows of `getRelatedProducts`, before covers are attached. */
  function RelatedRows(store: seq<Product>, productId: Option<int>, limit: nat): (r: seq<Product>)
    ensures SelectById(store, productId).None? ==> r == []
    ensures SelectById(store, productId).Some? && SelectById(store, productId).value.category.None? ==> r == []
    ensures SelectById(store, productId).Some? && SelectById(store, productId).value.category.Some? ==>
      var category := SelectById(store, productId).value.category.value;
      IsOrderedTopK(r, Select(store, RelatedClauses(category, productId)), ColumnKey(RatingColumn), false, limit)
  {
    match SelectById(store, productId)
    case None => []
    case Some(anchor) =>
      if anchor.category.None? then []
      else TopRated(Select(store, RelatedClauses(anchor.category.value, productId)), limit)
  }

  /** Rows drawn from a selection meet its clauses. */
  lemma TopKFromSelection(r: seq<Product>, store: seq<Product>, clauses: seq<Clause>, limit: nat)
    requires IsOrderedTopK(r, Select(store, clauses), ColumnKey(RatingColumn), false, limit)
    ensures forall i :: 0 <= i < |r| ==> r[i] in store && HoldsAll(r[i], clauses)
  {
    var sel := Select(store, clauses);
    forall i | 0 <= i < |r| ensures r[i] in store && HoldsAll(r[i], clauses) {
      assert r[i] in multiset(r);
      assert r[i] in multiset(sel);
    }
  }

  /** Every related row shares the anchor's category and has another id;
      the rows are highest rated first and at most `limit`. */
  lemma RelatedRowsFacts(store: seq<Product>, productId: Option<int>, limit: nat)
    ensures var rows := RelatedRows(store, productId, limit);
      && |rows| <= limit
      && SortedBy(rows, ColumnKey(RatingColumn), false)
      && forall i :: 0 <= i < |rows| ==>
        productId.Some? && IsRelated(rows[i], SelectById(store, productId).value.category.value, productId.value)
  {
    var rows := RelatedRows(store, productId, limit);
    var anchor := SelectById(store, productId);
    if anchor.Some? && anchor.value.category.Some? {
      var category := anchor.value.category.value;
      TopKFromSelection(rows, store, RelatedClauses(category, productId), limit);
      forall i | 0 <= i < |rows| ensures IsRelated(rows[i], category, productId.value) {
        RelatedClausesMeaning(rows[i], category, productId.value);
      }
    }
  }

  /** `getRelatedProducts`: nothing when the anchor is missing or has no
      category; otherwise at most `limit` products of the anchor's category,
      never the anchor itself, highest rated first, with covers. */
  function RelatedProducts(store: seq<Product>, media: seq<ProductMedia>, productId: Option<int>, limit: nat): (r: seq<Product>)
    requires FromTable(store)
    ensures SelectById(store, productId).None? ==> r == []
    ensures SelectById(store, productId).Some? && SelectById(store, productId).value.category.None? ==> r == []
    ensures |r| <= limit
    ensures forall i :: 0 <= i < |r| ==>
      productId.Some? && IsRelated(r[i], SelectById(store, productId).value.category.value, productId.value)
    ensures SortedBy(r, ColumnKey(RatingColumn), false)
    ensures PersistedRows(r) == PersistedRows(RelatedRows(store, productId, limit))
    ensures HasCoversOf(r, media, RelatedRows(store, productId, limit))
  {
    var rows := RelatedRows(store, productId, limit);
    RelatedRowsFacts(store, productId, limit);
    CoversKeepRows(media, rows);
    CoversKeepOrder(media, rows, RatingColumn, false);
    var r := SetCoverImages(media, rows);
    assert HasCoversOf(r, media, rows);
    if SelectById(store, productId).Some? && SelectById(store, productId).value.category.Some? then
      CoversKeepRelated(media, rows, SelectById(store, productId).value.category.value, productId.value);
      r
    else
      r
  }

  /** Attaching covers keeps rows related to the anchor. */
  lemma CoversKeepRelated(media: seq<ProductMedia>, rows: seq<Product>, category: string, productId: int)
    requires forall i :: 0 <= i < |rows| ==> IsRelated(rows[i], category, productId)
    ensures forall i :: 0 <= i < |SetCoverImages(media, rows)| ==>
      IsRelated(SetCoverImages(media, rows)[i], category, productId)
  {
    var r := SetCoverImages(media, rows);
    forall i | 0 <= i < |r| ensures IsRelated(r[i], category, productId) {
      assert Persisted(r[i]) == Persisted(rows[i]);
      assert r[i].category == rows[i].category && r[i].id == rows[i].id;
    }
  }

  /** Purchased ids as SQL values for an IN / NOT IN list. */
  function IdValues(ids: seq<int>): (r: seq<SqlValue>)
    ensures |r| == |ids|
    ensures forall i :: 0 <= i < |r| ==> r[i] == Num(ids[i] as real)
  {
    if |ids| == 0 then [] else [Num(ids[0] as real)] + IdValues(ids[1..])
  }

  lemma IdValuesMembership(ids: seq<int>, id: Option<int>)
    ensures Null !in IdValues(ids)
    ensures OfInt(id) in IdValues(ids) <==> id.Some? && id.value in ids
  {
    var vs := IdValues(ids);
    if OfInt(id) in vs {
      var k :| 0 <= k < |vs| && vs[k] == OfInt(id);
      assert ids[k] == id.value;
    }
    if id.Some? && id.value in ids {
      var k :| 0 <= k < |ids| && ids[k] == id.value;
      assert vs[k] == OfInt(id);
    }
  }

  /** `selectBatchIds(ids)`: the rows whose id is listed, as often as the table holds them, however
      often the id is listed. */
  function PurchasedRows(store: seq<Product>, ids: seq<int>): (r: seq<Product>)
    ensures forall i :: 0 <= i < |r| ==> r[i] in store && r[i].id.Some? && r[i].id.value in ids
    ensures forall i :: 0 <= i < |store| && store[i].id.Some? && store[i].id.value in ids ==> store[i] in r
    ensures forall p :: multiset(r)[p] == if p.id.Some? && p.id.value in ids then multiset(store)[p] else 0
  {
    var clauses := [In(IdColumn, IdValues(ids))];
    forall p ensures HoldsAll(p, clauses) <==> p.id.Some? && p.id.value in ids {
      assert clauses[0] == In(IdColumn, IdValues(ids));
      IdValuesMembership(ids, p.id);
    }
    Select(store, clauses)
  }

  /** How many rows carry category `c` (the `groupingBy ... counting()`
      entry for `c`). */
  function CategoryCount(rows: seq<Product>, c: string): nat {
    if |rows| == 0 then 0
    else (if rows[0].category == Some(c) then 1 else 0) + CategoryCount(rows[1..], c)
  }

  /** The non-null categories of `rows`, one entry per row. */
  function Categories(rows: seq<Product>): (r: seq<string>)
    ensures |r| == 0 <==> forall i :: 0 <= i < |rows| ==> rows[i].category.None?
    ensures forall c :: multiset(r)[c] == CategoryCount(rows, c)
  {
    if |rows| == 0 then []
    else
      var rest := Categories(rows[1..]);
      assert forall i :: 1 <= i < |rows| ==> rows[i] == rows[1..][i - 1];
      match rows[0].category
      case None => rest
      case Some(c) => [c] + rest
  }

  /** A candidate with the largest count in `all`; ties go to the earliest
      candidate. */
  function MostFrequent(candidates: seq<string>, all: seq<string>): (c: string)
    requires |candidates| > 0
    ensures c in candidates
    ensures forall d :: d in candidates ==> multiset(all)[d] <= multiset(all)[c]
  {
    if |candidates| == 1 then candidates[0]
    else
      var best := MostFrequent(candidates[1..], all);
      assert forall d :: d in candidates ==> d == candidates[0] || d in candidates[1..];
      if multiset(all)[best] <= multiset(all)[candidates[0]] then candidates[0] else best
  }

  /** The category with the most purchased products, or `None` when no
      purchased product has a category. Which of several equally frequent
      categories wins is left open by the source (it takes the maximum over
      a hash map); the model picks one, and only its maximality is stated. */
  function PreferredCategory(store: seq<Product>, ids: seq<int>): (r: Option<string>)
    ensures var rows := PurchasedRows(store, ids);
      && (r.None? <==> forall i :: 0 <= i < |rows| ==> rows[i].category.None?)
      && (r.Some? ==> CategoryCount(rows, r.value) > 0)
      && (r.Some? ==> forall c :: CategoryCount(rows, c) <= CategoryCount(rows, r.value))
  {
    var cats := Categories(PurchasedRows(store, ids));
    if |cats| == 0 then None
    else
      var top := MostFrequent(cats, cats);
      assert forall c :: c !in cats ==> multiset(cats)[c] == 0;
      Some(top)
  }

  /** The clauses of the recommendation query: the preferred category, and
      an id not among the purchased ones. */
  function RecommendClauses(category: string, ids: seq<int>): seq<Clause> {
    [Eq(CategoryColumn, Text(category)), NotIn(IdColumn, IdValues(ids))]
  }

  predicate IsRecommendable(p: Product, category: string, ids: seq<int>) {
    p.category == Some(category) && p.id.Some? && p.id.value !in ids
  }

  lemma RecommendClausesMeaning(p: Product, category: string, ids: seq<int>)
    ensures HoldsAll(p, RecommendClauses(category, ids)) <==> IsRecommendable(p, category, ids)
  {
    var cl := RecommendClauses(category, ids);
    assert cl[0] == Eq(CategoryColumn, Text(category));
    assert cl[1] == NotIn(IdColumn, IdValues(ids));
    IdValuesMembership(ids, p.id);
  }

  /** The rows of `getTopRecommendedProductsByUser`, before covers are
      attached. `purchasedIds` is what the order service returned. */
  function RecommendedRows(store: seq<Product>, purchasedIds: Option<seq<int>>, limit: nat): (r: seq<Product>)
    ensures purchasedIds.None? || |purchasedIds.value| == 0 ==> r == []
    ensures purchasedIds.Some? && PreferredCategory(store, purchasedIds.value).None? ==> r == []
    ensures purchasedIds.Some? && |purchasedIds.value| > 0 && PreferredCategory(store, purchasedIds.value).Some? ==>
      var ids := purchasedIds.value;
      IsOrderedTopK(r, Select(store, RecommendClauses(PreferredCategory(store, ids).value, ids)),
                    ColumnKey(RatingColumn), false, limit)
  {
    if purchasedIds.None? || |purchasedIds.value| == 0 then []
    else
      var ids := purchasedIds.value;
      match PreferredCategory(store, ids)
      case None => []
      case Some(top) => TopRated(Select(store, RecommendClauses(top, ids)), limit)
  }

  lemma RecommendedRowsFacts(store: seq<Product>, purchasedIds: Option<seq<int>>, limit: nat)
    ensures var rows := RecommendedRows(store, purchasedIds, limit);
      && |rows| <= limit
      && SortedBy(rows, ColumnKey(RatingColumn), false)
      && forall i :: 0 <= i < |rows| ==>
        && purchasedIds.Some?
        && PreferredCategory(store, purchasedIds.value).Some?
        && IsRecommendable(rows[i], PreferredCategory(store, purchasedIds.value).value, purchasedIds.value)
  {
    var rows := RecommendedRows(store, purchasedIds, limit);
    if purchasedIds.Some? && |purchasedIds.value| > 0 && PreferredCategory(store, purchasedIds.value).Some? {
      var ids := purchasedIds.value;
      var top := PreferredCategory(store, ids).value;
      TopKFromSelection(rows, store, RecommendClauses(top, ids), limit);
      forall i | 0 <= i < |rows| ensures IsRecommendable(rows[i], top, ids) {
        RecommendClausesMeaning(rows[i], top, ids);
      }
    }
  }

  /** `getTopRecommendedProductsByUser`: nothing without purchases or
      without a category among them; otherwise at most `limit` products of
      the preferred category that the user has not bought, highest rated
      first, with covers. */
  function TopRecommendedProducts(
    store: seq<Product>, media: seq<ProductMedia>, purchasedIds: Option<seq<int>>, limit: nat): (r: seq<Product>)
    requires FromTable(store)
    ensures purchasedIds.None? || |purchasedIds.value| == 0 ==> r == []
    ensures purchasedIds.Some? && PreferredCategory(store, purchasedIds.value).None? ==> r == []
    ensures |r| <= limit
    ensures forall i :: 0 <= i < |r| ==>
      && purchasedIds.Some?
      && PreferredCategory(store, purchasedIds.value).Some?
      && IsRecommendable(r[i], PreferredCategory(store, purchasedIds.value).value, purchasedIds.value)
    ensures SortedBy(r, ColumnKey(RatingColumn), false)
    ensures PersistedRows(r) == PersistedRows(RecommendedRows(store, purchasedIds, limit))
    ensures HasCoversOf(r, media, RecommendedRows(store, purchasedIds, limit))
  {
    var rows := RecommendedRows(store, purchasedIds, limit);
    RecommendedRowsFacts(store, purchasedIds, limit);
    CoversKeepRows(media, rows);
    CoversKeepOrder(media, rows, RatingColumn, false);
    var r := SetCoverImages(media, rows);
    assert HasCoversOf(r, media, rows);
    if purchasedIds.Some? && PreferredCategory(store, purchasedIds.value).Some? then
      CoversKeepRecommendable(media, rows, PreferredCategory(store, purchasedIds.value).value, purchasedIds.value);
      r
    else
      r
  }

  /** Attaching covers keeps rows recommendable. */
  lemma CoversKeepRecommendable(media: seq<ProductMedia>, rows: seq<Product>, category: string, ids: seq<int>)
    requires forall i :: 0 <= i < |rows| ==> IsRecommendable(rows[i], category, ids)
    ensures forall i :: 0 <= i < |SetCoverImages(media, rows)| ==>
      IsRecommendable(SetCoverImages(media, rows)[i], category, ids)
  {
    var r := SetCoverImages(media, rows);
    forall i | 0 <= i < |r| ensures IsRecommendable(r[i], category, ids) {
      assert Persisted(r[i]) == Persisted(rows[i]);
      assert r[i].category == rows[i].category && r[i].id == rows[i].id;
    }
  }
}
