/**
 * `updateProduct` and `deleteProduct`: both look the product up first and
 * touch the table only when it exists. Updates follow the mapper's default
 * field strategy: only the non-null fields of the given product are written.
 */
module ProductCrud {
  import opened Nullable
  import opened SqlValues
  import opened Entities
  import opened TableStore
  import Recommendation

  function ProductId(p: Product): Option<int> {
    p.id
  }

  /** The row `updateById(patch)` leaves behind for a matched `row`. */
  function MergeProduct(row: Product, patch: Product): Product {
    row.(
      name := patch.name.OrElse(row.name),
      description := patch.description.OrElse(row.description),
      price := patch.price.OrElse(row.price),
      stock := patch.stock.OrElse(row.stock),
      sellerId := patch.sellerId.OrElse(row.sellerId),
      category := patch.category.OrElse(row.category),
      title := patch.title.OrElse(row.title),
      status := patch.status.OrElse(row.status),
      rating := patch.rating.OrElse(row.rating),
      createDatetime := patch.createDatetime.OrElse(row.createDatetime),
      updateDatetime := patch.updateDatetime.OrElse(row.updateDatetime),
      createUser := patch.createUser.OrElse(row.createUser),
      updateUser := patch.updateUser.OrElse(row.updateUser))
  }

  /** Column by column: the id stays, every other column takes the patch's
      value when that is non-null and keeps its own otherwise; the cover,
      not being a column, stays. */
  predicate WrittenFrom(updated: Product, row: Product, patch: Product) {
    && updated.id == row.id
    && updated.coverImageUrl == row.coverImageUrl
    && forall col :: col != IdColumn ==>
      ColumnValue(updated, col) == (if ColumnValue(patch, col).Null? then ColumnValue(row, col) else ColumnValue(patch, col))
  }

  /** The merged row follows the column-wise rule ... */
  lemma MergeWritesNonNullColumns(row: Product, patch: Product)
    ensures WrittenFrom(MergeProduct(row, patch), row, patch)
  {
    var m := MergeProduct(row, patch);
    forall col | col != IdColumn
      ensures ColumnValue(m, col) == (if ColumnValue(patch, col).Null? then ColumnValue(row, col) else ColumnValue(patch, col))
    {
      match col
      case NameColumn =>
      case DescriptionColumn =>
      case PriceColumn =>
      case StockColumn =>
      case SellerIdColumn =>
      case CategoryColumn =>
      case TitleColumn =>
      case StatusColumn =>
      case RatingColumn =>
      case CreateDatetimeColumn =>
      case UpdateDatetimeColumn =>
      case CreateUserColumn =>
      case UpdateUserColumn =>
    }
  }

  /** ... and is the only row that does. */
  lemma WrittenFromIsMerge(row: Product, patch: Product, updated: Product)
    requires WrittenFrom(updated, row, patch)
    ensures updated == MergeProduct(row, patch)
  {
    var m := MergeProduct(row, patch);
    MergeWritesNonNullColumns(row, patch);
    ColumnsDetermineProduct(updated, m);
  }

  /** Two products agreeing on every column and on the cover are equal. */
  lemma ColumnsDetermineProduct(a: Product, b: Product)
    requires a.id == b.id && a.coverImageUrl == b.coverImageUrl
    requires forall col :: col != IdColumn ==> ColumnValue(a, col) == ColumnValue(b, col)
    ensures a == b
  {
    assert ColumnValue(a, NameColumn) == ColumnValue(b, NameColumn);
    assert ColumnValue(a, DescriptionColumn) == ColumnValue(b, DescriptionColumn);
    assert ColumnValue(a, PriceColumn) == ColumnValue(b, PriceColumn);
    assert ColumnValue(a, StockColumn) == ColumnValue(b, StockColumn);
    assert ColumnValue(a, SellerIdColumn) == ColumnValue(b, SellerIdColumn);
    assert ColumnValue(a, CategoryColumn) == ColumnValue(b, CategoryColumn);
    assert ColumnValue(a, TitleColumn) == ColumnValue(b, TitleColumn);
    assert ColumnValue(a, StatusColumn) == ColumnValue(b, StatusColumn);
    assert ColumnValue(a, RatingColumn) == ColumnValue(b, RatingColumn);
    assert ColumnValue(a, CreateDatetimeColumn) == ColumnValue(b, CreateDatetimeColumn);
    assert ColumnValue(a, UpdateDatetimeColumn) == ColumnValue(b, UpdateDatetimeColumn);
    assert ColumnValue(a, CreateUserColumn) == ColumnValue(b, CreateUserColumn);
    assert ColumnValue(a, UpdateUserColumn) == ColumnValue(b, UpdateUserColumn);
  }

  /** `updateProduct(id, product)`: null when no row has `id`, the table
      untouched; otherwise `product` with its id set to `id`, and the row
      with that id overwritten by its non-null fields. */
  function UpdateProduct(store: seq<Product>, id: Option<int>, product: Product): (r: (Option<Product>, seq<Product>))
    ensures r.0.None? <==> Recommendation.SelectById(store, id).None?
    ensures r.0.None? ==> r.1 == store
    ensures r.0.Some? ==> r.0.value == product.(id := id)
    ensures |r.1| == |store|
    ensures forall i :: 0 <= i < |store| && !HasId(store[i].id, id) ==> r.1[i] == store[i]
    ensures r.0.Some? ==> forall i :: 0 <= i < |store| && HasId(store[i].id, id) ==>
      WrittenFrom(r.1[i], store[i], product)
  {
    match Recommendation.SelectById(store, id)
    case None => (None, store)
    case Some(_) =>
      var patch := product.(id := id);
      var updated := UpdateWhereId(store, ProductId, id, row => MergeProduct(row, patch));
      forall i | 0 <= i < |store| && HasId(store[i].id, id) ensures WrittenFrom(updated[i], store[i], product) {
        MergeWritesNonNullColumns(store[i], product);
      }
      (Some(patch), updated)
  }

  /** `deleteProduct(id)`: false when no row has `id`; otherwise the rows
      with that id are removed and the answer is whether any was. */
  function DeleteProduct(store: seq<Product>, id: Option<int>): (r: (bool, seq<Product>))
    ensures r.0 <==> exists i :: 0 <= i < |store| && HasId(store[i].id, id)
    ensures r.0 <==> |r.1| < |store|
    ensures |r.1| == |store| - MatchCount(store, ProductId, id)
    ensures forall i :: 0 <= i < |r.1| ==> r.1[i] in store && !HasId(r.1[i].id, id)
    ensures forall i :: 0 <= i < |store| && !HasId(store[i].id, id) ==> store[i] in r.1
    ensures forall p :: multiset(r.1)[p] == if HasId(p.id, id) then 0 else multiset(store)[p]
  {
    match Recommendation.SelectById(store, id)
    case None =>
      assert forall i :: 0 <= i < |store| ==> !HasId(store[i].id, id);
      (false, store)
    case Some(_) =>
      (MatchCount(store, ProductId, id) > 0, DeleteWhereId(store, ProductId, id))
  }
}
