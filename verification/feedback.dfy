/**
 * The feedback service: the feedback of one product, its average rating,
 * its comment count, the sorted listing, and the update and delete result
 * mapping. The `product_feedback` table is a sequence of rows.
 */
module Feedback {
  import opened Nullable
  import opened SqlValues
  import opened Entities
  import opened RowOrder
  import opened TableStore
  import JavaStrings

  /** `WHERE product_id = ?`; a null argument matches nothing. */
  predicate ForProduct(f: ProductFeedback, productId: Option<int>) {
    HasId(f.productId, productId)
  }

  /** `getFeedbackByProductId`: the product's feedback rows, in store order. */
  function FeedbackByProduct(store: seq<ProductFeedback>, productId: Option<int>): (r: seq<ProductFeedback>)
    ensures forall i :: 0 <= i < |r| ==> r[i] in store && ForProduct(r[i], productId)
    ensures forall i :: 0 <= i < |store| && ForProduct(store[i], productId) ==> store[i] in r
    ensures forall f :: multiset(r)[f] == if ForProduct(f, productId) then multiset(store)[f] else 0
    ensures productId.None? ==> r == []
  {
    if productId.None? then
      WhereNone(store, OfProduct(productId));
      Where(store, OfProduct(productId))
    else
      Where(store, OfProduct(productId))
  }

  function OfProduct(productId: Option<int>): ProductFeedback -> bool {
    f => ForProduct(f, productId)
  }

  /** Feedback of the product that carries a rating
      (`product_id = ? AND rating IS NOT NULL`). */
  predicate IsRatedFeedbackOf(f: ProductFeedback, productId: Option<int>) {
    ForProduct(f, productId) && f.rating.Some?
  }

  function RatedFeedback(store: seq<ProductFeedback>, productId: Option<int>): (r: seq<ProductFeedback>)
    ensures forall i :: 0 <= i < |r| ==> r[i] in store && IsRatedFeedbackOf(r[i], productId)
    ensures forall i :: 0 <= i < |store| && IsRatedFeedbackOf(store[i], productId) ==> store[i] in r
    ensures forall f :: multiset(r)[f] == if IsRatedFeedbackOf(f, productId) then multiset(store)[f] else 0
  {
    Where(store, RatedOf(productId))
  }

  function RatedOf(productId: Option<int>): ProductFeedback -> bool {
    f => IsRatedFeedbackOf(f, productId)
  }

  /** The sum of the ratings present among `rows`. */
  function RatingSum(rows: seq<ProductFeedback>): int {
    if |rows| == 0 then 0
    else rows[0].rating.GetOr(0) + RatingSum(rows[1..])
  }

  /** `getAverageRatingByProductId`: null when the product has no rated
      feedback; otherwise the mean of the ratings present, rows without a
      rating taking no part. */
  function AverageRating(store: seq<ProductFeedback>, productId: Option<int>): (r: Option<real>)
    ensures r.None? <==> forall i :: 0 <= i < |store| ==> !IsRatedFeedbackOf(store[i], productId)
    ensures r.Some? ==>
      r.value * |RatedFeedback(store, productId)| as real == RatingSum(RatedFeedback(store, productId)) as real
  {
    var rated := RatedFeedback(store, productId);
    if |rated| == 0 then None
    else Some(RatingSum(rated) as real / |rated| as real)
  }

  /** Every rating lies within [lo, hi] ... */
  ghost predicate RatingsWithin(rows: seq<ProductFeedback>, lo: int, hi: int) {
    forall i :: 0 <= i < |rows| && rows[i].rating.Some? ==> lo <= rows[i].rating.value <= hi
  }

  /** ... so the sum of n ratings lies within [n * lo, n * hi]. */
  lemma {:induction false} RatingSumWithin(rows: seq<ProductFeedback>, lo: int, hi: int)
    requires forall i :: 0 <= i < |rows| ==> rows[i].rating.Some?
    requires RatingsWithin(rows, lo, hi)
    ensures lo * |rows| <= RatingSum(rows) <= hi * |rows|
  {
    if |rows| > 0 {
      RatingSumWithin(rows[1..], lo, hi);
      assert lo * |rows| == lo + lo * (|rows| - 1);
      assert hi * |rows| == hi + hi * (|rows| - 1);
    }
  }

  /** The average of ratings within [lo, hi] is within [lo, hi]; with
      ratings of one to five stars, so is the average. */
  lemma AverageWithinRatings(store: seq<ProductFeedback>, productId: Option<int>, lo: int, hi: int)
    requires RatingsWithin(RatedFeedback(store, productId), lo, hi)
    ensures AverageRating(store, productId).Some? ==>
      lo as real <= AverageRating(store, productId).value <= hi as real
  {
    var rated := RatedFeedback(store, productId);
    if |rated| > 0 {
      RatingSumWithin(rated, lo, hi);
      RatioWithin(RatingSum(rated), |rated|, lo, hi);
    }
  }

  /** Dividing a sum of k values within [lo, hi] by k. */
  lemma RatioWithin(sum: int, k: int, lo: int, hi: int)
    requires k > 0 && lo * k <= sum <= hi * k
    ensures lo as real <= sum as real / k as real <= hi as real
  {
    var q := sum as real / k as real;
    assert q * k as real == sum as real;
    assert (lo * k) as real == lo as real * k as real;
    assert (hi * k) as real == hi as real * k as real;
  }

  /** A row of the product without a rating leaves the average alone
      but is counted as a comment. */
  lemma UnratedRowIgnored(store: seq<ProductFeedback>, productId: Option<int>, f: ProductFeedback)
    requires ForProduct(f, productId) && f.rating.None?
    ensures AverageRating(store + [f], productId) == AverageRating(store, productId)
    ensures |FeedbackByProduct(store + [f], productId)| == |FeedbackByProduct(store, productId)| + 1
  {
    var rated, all := RatedOf(productId), OfProduct(productId);
    assert [f][1..] == [];
    assert !rated(f) && all(f);
    WhereAppend(store, [f], rated);
    assert Where([f], rated) == [];
    assert RatedFeedback(store + [f], productId) == RatedFeedback(store, productId);
    WhereAppend(store, [f], all);
    assert Where([f], all) == [f];
  }

  /** Ratings 4 and 5 and a missing rating average to 4.5 over three
      comments. */
  lemma AverageOfFourAndFive(a: ProductFeedback, b: ProductFeedback, c: ProductFeedback)
    requires a.productId == Some(1) && a.rating == Some(4)
    requires b.productId == Some(1) && b.rating == Some(5)
    requires c.productId == Some(1) && c.rating.None?
    ensures AverageRating([a, b] + [c], Some(1)) == Some(4.5)
    ensures CommentCount([a, b] + [c], Some(1)) == 3
  {
    var pid := Some(1);
    UnratedRowIgnored([a, b], pid, c);
    AverageOfTwo(a, b, pid);
  }

  lemma AverageOfTwo(a: ProductFeedback, b: ProductFeedback, pid: Option<int>)
    requires IsRatedFeedbackOf(a, pid) && IsRatedFeedbackOf(b, pid)
    ensures AverageRating([a, b], pid) == Some((a.rating.value + b.rating.value) as real / 2.0)
    ensures |FeedbackByProduct([a, b], pid)| == 2
  {
    var rated, all := RatedOf(pid), OfProduct(pid);
    assert [a, b][1..] == [b] && [b][1..] == [];
    assert rated(a) && rated(b) && all(a) && all(b);
    assert RatedFeedback([a, b], pid) == [a, b];
    assert RatingSum([b]) == b.rating.value + RatingSum([]);
    assert RatingSum([a, b]) == a.rating.value + RatingSum([b]);
  }

  /** `Long.intValue()`: the low 32 bits as a two's-complement int. */
  function LongToInt(n: int): (r: int)
    ensures -0x8000_0000 <= r < 0x8000_0000
    ensures (r - n) % 0x1_0000_0000 == 0
    ensures -0x8000_0000 <= n < 0x8000_0000 ==> r == n
  {
    (n + 0x8000_0000) % 0x1_0000_0000 - 0x8000_0000
  }

  /** `getCommentCountByProductId`: the number of the product's feedback
      rows, rated or not, as a Java int. */
  function CommentCount(store: seq<ProductFeedback>, productId: Option<int>): (r: int)
    ensures |FeedbackByProduct(store, productId)| < 0x8000_0000 ==> r == |FeedbackByProduct(store, productId)|
    ensures productId.None? ==> r == 0
  {
    LongToInt(|FeedbackByProduct(store, productId)|)
  }

  /** Every rated row is also a comment. */
  lemma {:induction false} RatedAreCounted(store: seq<ProductFeedback>, productId: Option<int>)
    ensures |RatedFeedback(store, productId)| <= |FeedbackByProduct(store, productId)|
  {
    if |store| > 0 {
      RatedAreCounted(store[1..], productId);
      assert store == [store[0]] + store[1..];
      WhereAppend([store[0]], store[1..], RatedOf(productId));
      WhereAppend([store[0]], store[1..], OfProduct(productId));
    }
  }

  /** The columns the listing may sort by. */
  datatype FeedbackOrder = ByRating | ByCreateDatetime

  function FeedbackKey(o: FeedbackOrder): ProductFeedback -> SqlValue {
    match o
    case ByRating => (f: ProductFeedback) => FieldValue(f, RatingField)
    case ByCreateDatetime => (f: ProductFeedback) => FieldValue(f, CreateDatetimeField)
  }

  /** The allow-list: exactly "rating" and "create_datetime", case
      sensitive; anything else, including a null or empty value, means no
      ordering. */
  function FeedbackOrderOf(sortBy: Option<string>): (r: Option<FeedbackOrder>)
    ensures r == Some(ByRating) <==> sortBy == Some("rating")
    ensures r == Some(ByCreateDatetime) <==> sortBy == Some("create_datetime")
  {
    if !JavaStrings.NotEmpty(sortBy) then None
    else if sortBy.value == "rating" then Some(ByRating)
    else if sortBy.value == "create_datetime" then Some(ByCreateDatetime)
    else None
  }

  /** The outcome of the listing before the page is cut. */
  datatype FeedbackPage = FeedbackPage(records: seq<ProductFeedback>, total: nat)

  /** `getFeedbackByProductIdWithPageAndSort`: the product's feedback, in
      store order when `sortBy` is not on the allow-list, otherwise by that
      column, ascending iff `order` is "asc" in any case. */
  function FeedbackListing(store: seq<ProductFeedback>, productId: Option<int>, sortBy: Option<string>, order: Option<string>): (r: FeedbackPage)
    ensures r.total == |r.records|
    ensures forall i :: 0 <= i < |r.records| ==> r.records[i] in store && ForProduct(r.records[i], productId)
    ensures multiset(r.records) == multiset(FeedbackByProduct(store, productId))
    ensures FeedbackOrderOf(sortBy).None? ==> r.records == FeedbackByProduct(store, productId)
    ensures FeedbackOrderOf(sortBy).Some? ==>
      SortedBy(r.records, FeedbackKey(FeedbackOrderOf(sortBy).value), JavaStrings.IsAscending(order))
  {
    var rows := FeedbackByProduct(store, productId);
    match FeedbackOrderOf(sortBy)
    case None => FeedbackPage(rows, |rows|)
    case Some(o) =>
      var asc := JavaStrings.IsAscending(order);
      SortSorted(rows, FeedbackKey(o), asc);
      var sorted := Sort(rows, FeedbackKey(o), asc);
      assert forall i :: 0 <= i < |sorted| ==> sorted[i] in multiset(rows);
      FeedbackPage(sorted, |sorted|)
  }

  function FeedbackId(f: ProductFeedback): Option<int> {
    f.id
  }

  /** The row `updateById(patch)` leaves behind for a matched `row`: each
      non-null field of the patch is written, the others are kept. */
  function MergeFeedback(row: ProductFeedback, patch: ProductFeedback): ProductFeedback {
    row.(
      productId := patch.productId.OrElse(row.productId),
      userId := patch.userId.OrElse(row.userId),
      rating := patch.rating.OrElse(row.rating),
      comment := patch.comment.OrElse(row.comment),
      createDatetime := patch.createDatetime.OrElse(row.createDatetime),
      updateDatetime := patch.updateDatetime.OrElse(row.updateDatetime),
      createUser := patch.createUser.OrElse(row.createUser),
      updateUser := patch.updateUser.OrElse(row.updateUser))
  }

  /** The columns of the `product_feedback` table. */
  datatype FeedbackField =
    | IdField | ProductIdField | UserIdField | RatingField | CommentField
    | CreateDatetimeField | UpdateDatetimeField | CreateUserField | UpdateUserField

  /** The value a feedback row holds in a column. */
  function FieldValue(f: ProductFeedback, field: FeedbackField): SqlValue {
    match field
    case IdField => OfInt(f.id)
    case ProductIdField => OfInt(f.productId)
    case UserIdField => OfInt(f.userId)
    case RatingField => OfInt(f.rating)
    case CommentField => OfText(f.comment)
    case CreateDatetimeField => OfInt(f.createDatetime)
    case UpdateDatetimeField => OfInt(f.updateDatetime)
    case CreateUserField => OfText(f.createUser)
    case UpdateUserField => OfText(f.updateUser)
  }

  /** Column by column: the id stays, every other column takes the patch's
      value when that is non-null and keeps its own otherwise. */
  predicate WrittenFrom(updated: ProductFeedback, row: ProductFeedback, patch: ProductFeedback) {
    && updated.id == row.id
    && forall field :: field != IdField ==>
      FieldValue(updated, field) ==
        (if FieldValue(patch, field).Null? then FieldValue(row, field) else FieldValue(patch, field))
  }

  /** The merged row follows the column-wise rule ... */
  lemma MergeFeedbackWritesNonNullFields(row: ProductFeedback, patch: ProductFeedback)
    ensures WrittenFrom(MergeFeedback(row, patch), row, patch)
  {
    var m := MergeFeedback(row, patch);
    forall field | field != IdField
      ensures FieldValue(m, field) ==
        (if FieldValue(patch, field).Null? then FieldValue(row, field) else FieldValue(patch, field))
    {
      match field
      case ProductIdField =>
      case UserIdField =>
      case RatingField =>
      case CommentField =>
      case CreateDatetimeField =>
      case UpdateDatetimeField =>
      case CreateUserField =>
      case UpdateUserField =>
    }
  }

  /** ... and is the only row that does. */
  lemma MergeFeedbackIsWrittenFrom(row: ProductFeedback, patch: ProductFeedback, updated: ProductFeedback)
    ensures WrittenFrom(updated, row, patch) <==> updated == MergeFeedback(row, patch)
  {
    MergeFeedbackWritesNonNullFields(row, patch);
    if WrittenFrom(updated, row, patch) {
      FieldsDetermineFeedback(updated, MergeFeedback(row, patch));
    }
  }

  /** Two feedback rows agreeing on every column are equal. */
  lemma FieldsDetermineFeedback(a: ProductFeedback, b: ProductFeedback)
    requires a.id == b.id
    requires forall field :: field != IdField ==> FieldValue(a, field) == FieldValue(b, field)
    ensures a == b
  {
    assert FieldValue(a, ProductIdField) == FieldValue(b, ProductIdField);
    assert FieldValue(a, UserIdField) == FieldValue(b, UserIdField);
    assert FieldValue(a, RatingField) == FieldValue(b, RatingField);
    assert FieldValue(a, CommentField) == FieldValue(b, CommentField);
    assert FieldValue(a, CreateDatetimeField) == FieldValue(b, CreateDatetimeField);
    assert FieldValue(a, UpdateDatetimeField) == FieldValue(b, UpdateDatetimeField);
    assert FieldValue(a, CreateUserField) == FieldValue(b, CreateUserField);
    assert FieldValue(a, UpdateUserField) == FieldValue(b, UpdateUserField);
  }

  /** Writing the same patch twice is writing it once. */
  lemma MergeFeedbackIdempotent(row: ProductFeedback, patch: ProductFeedback)
    ensures MergeFeedback(MergeFeedback(row, patch), patch) == MergeFeedback(row, patch)
  {
  }

  /** `updateFeedback`: true iff `updateById` matched a row; matched rows
      take the feedback's non-null fields, the other rows stay. */
  function UpdateFeedback(store: seq<ProductFeedback>, feedback: ProductFeedback): (r: (bool, seq<ProductFeedback>))
    ensures r.0 <==> exists i :: 0 <= i < |store| && HasId(store[i].id, feedback.id)
    ensures |r.1| == |store|
    ensures forall i :: 0 <= i < |store| && !HasId(store[i].id, feedback.id) ==> r.1[i] == store[i]
    ensures forall i :: 0 <= i < |store| && HasId(store[i].id, feedback.id) ==>
      WrittenFrom(r.1[i], store[i], feedback)
  {
    var updated := UpdateWhereId(store, FeedbackId, feedback.id, row => MergeFeedback(row, feedback));
    forall i | 0 <= i < |store| && HasId(store[i].id, feedback.id)
      ensures WrittenFrom(updated[i], store[i], feedback)
    {
      MergeFeedbackWritesNonNullFields(store[i], feedback);
    }
    (MatchCount(store, FeedbackId, feedback.id) > 0, updated)
  }

  /** `deleteFeedback`: true iff `deleteById` removed a row. */
  function DeleteFeedback(store: seq<ProductFeedback>, id: Option<int>): (r: (bool, seq<ProductFeedback>))
    ensures r.0 <==> exists i :: 0 <= i < |store| && HasId(store[i].id, id)
    ensures r.0 <==> |r.1| < |store|
    ensures forall i :: 0 <= i < |r.1| ==> r.1[i] in store && !HasId(r.1[i].id, id)
    ensures forall i :: 0 <= i < |store| && !HasId(store[i].id, id) ==> store[i] in r.1
    ensures forall f :: multiset(r.1)[f] == if HasId(f.id, id) then 0 else multiset(store)[f]
  {
    (MatchCount(store, FeedbackId, id) > 0, DeleteWhereId(store, FeedbackId, id))
  }
}
