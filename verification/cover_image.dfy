/**
 * Attaching a product's cover image: the URL of its media row of type
 * "image" with the smallest id (`ORDER BY id ASC LIMIT 1`).
 */
module CoverImage {
  import opened Nullable
  import opened Entities

  predicate IsImageOf(m: ProductMedia, productId: int) {
    m.productId == Some(productId) && m.mediaType == Some("image")
  }

  ghost predicate HasImage(media: seq<ProductMedia>, productId: int) {
    exists k :: 0 <= k < |media| && IsImageOf(media[k], productId)
  }

  /** `m` is an image row of the product with no smaller id among them. */
  ghost predicate IsCoverRow(media: seq<ProductMedia>, productId: int, m: ProductMedia) {
    && m in media
    && IsImageOf(m, productId)
    && forall k :: 0 <= k < |media| && IsImageOf(media[k], productId) ==> m.id <= media[k].id
  }

  /** The media query of `setCoverImage`. Ids are the table's primary key;
      should two rows share one, the earlier in the store is taken. */
  function FirstImage(media: seq<ProductMedia>, productId: int): (r: Option<ProductMedia>)
    ensures r.None? <==> !HasImage(media, productId)
    ensures r.Some? ==> IsCoverRow(media, productId, r.value)
  {
    if |media| == 0 then None
    else
      var rest := FirstImage(media[1..], productId);
      assert forall k :: 1 <= k < |media| ==> media[k] == media[1..][k - 1];
      if IsImageOf(media[0], productId) && (rest.None? || media[0].id <= rest.value.id) then
        Some(media[0])
      else
        rest
  }

  /** `setCoverImage`: a product with an id and an image gets the cover
      row's URL (null included); otherwise it is returned untouched. Only
      the cover field ever changes. */
  function SetCoverImage(media: seq<ProductMedia>, p: Product): (r: Product)
    ensures Persisted(r) == Persisted(p)
    ensures p.id.None? || !HasImage(media, p.id.value) ==> r == p
    ensures p.id.Some? && HasImage(media, p.id.value) ==>
      exists m :: IsCoverRow(media, p.id.value, m) && r.coverImageUrl == m.url
  {
    if p.id.None? then p
    else
      match FirstImage(media, p.id.value)
      case None => p
      case Some(m) => p.(coverImageUrl := m.url)
  }

  /** `setCoverImages`: each product resolved on its own, in place. */
  function SetCoverImages(media: seq<ProductMedia>, rows: seq<Product>): (r: seq<Product>)
    ensures |r| == |rows|
    ensures forall i :: 0 <= i < |r| ==> r[i] == SetCoverImage(media, rows[i])
  {
    if |rows| == 0 then []
    else [SetCoverImage(media, rows[0])] + SetCoverImages(media, rows[1..])
  }

  /** Rows as the table holds them: the cover is not a column, so it is
      null until a cover is attached. */
  predicate FromTable(rows: seq<Product>) {
    forall i :: 0 <= i < |rows| ==> rows[i].coverImageUrl.None?
  }

  /** Of rows read from the table, exactly those whose product has an image
      get a cover field set, and it is the cover row's URL. */
  lemma CoverComesFromImage(media: seq<ProductMedia>, rows: seq<Product>)
    requires FromTable(rows)
    ensures forall i :: 0 <= i < |rows| && (rows[i].id.None? || !HasImage(media, rows[i].id.value)) ==>
      SetCoverImages(media, rows)[i].coverImageUrl.None?
    ensures forall i :: 0 <= i < |rows| && rows[i].id.Some? && HasImage(media, rows[i].id.value) ==>
      exists m :: IsCoverRow(media, rows[i].id.value, m) && SetCoverImages(media, rows)[i].coverImageUrl == m.url
  {
    var r := SetCoverImages(media, rows);
    forall i | 0 <= i < |rows| && rows[i].id.Some? && HasImage(media, rows[i].id.value)
      ensures exists m :: IsCoverRow(media, rows[i].id.value, m) && r[i].coverImageUrl == m.url
    {
      assert r[i] == SetCoverImage(media, rows[i]);
    }
  }

  /** `r` is `rows` with each product's cover attached, in place. */
  predicate HasCoversOf(r: seq<Product>, media: seq<ProductMedia>, rows: seq<Product>) {
    |r| == |rows| && forall i :: 0 <= i < |r| ==> r[i] == SetCoverImage(media, rows[i])
  }

  /** The persisted content of each row, in order. */
  function PersistedRows(rows: seq<Product>): (r: seq<Product>)
    ensures |r| == |rows|
    ensures forall i :: 0 <= i < |r| ==> r[i] == Persisted(rows[i])
  {
    if |rows| == 0 then [] else [Persisted(rows[0])] + PersistedRows(rows[1..])
  }

  /** Resolving covers changes no stored column of any row. */
  lemma CoversKeepRows(media: seq<ProductMedia>, rows: seq<Product>)
    ensures PersistedRows(SetCoverImages(media, rows)) == PersistedRows(rows)
  {
  }

  /** Two image rows with ids 10 and 11 for product 1: the cover is the URL
      of row 10, whichever comes first in the table. */
  lemma CoverIsSmallestImageId(p: Product, m10: ProductMedia, m11: ProductMedia, video: ProductMedia)
    requires p.id == Some(1)
    requires m10 == ProductMedia(10, Some(1), Some("image"), Some("a.png"), Some(1), None, None, None)
    requires m11 == ProductMedia(11, Some(1), Some("image"), Some("b.png"), Some(2), None, None, None)
    requires video == ProductMedia(3, Some(1), Some("video"), Some("v.mp4"), Some(0), None, None, None)
    ensures SetCoverImage([m11, video, m10], p).coverImageUrl == Some("a.png")
  {
    var media := [m11, video, m10];
    assert IsImageOf(media[2], 1);
    var m :| IsCoverRow(media, 1, m) && SetCoverImage(media, p).coverImageUrl == m.url;
    assert IsCoverRow(media, 1, m);
    assert m.id <= media[2].id;
    assert m == m10;
  }
}
