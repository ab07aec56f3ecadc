/**
 * The three persisted entities of the catalog: products, their media rows
 * and user feedback. Every column is nullable in Java and so is an Option
 * here, except the media id, which is treated as a non-null primary key;
 * timestamps are opaque instants.
 */
module Entities {
  import opened Nullable
  import opened SqlValues
  import JavaStrings

  type Instant = int

  /** A row of the `Products` table, plus the non-persisted cover URL. */
  datatype Product = Product(
    id: Option<int>,
    name: Option<string>,
    description: Option<string>,
    price: Option<real>,
    stock: Option<int>,
    sellerId: Option<int>,
    category: Option<string>,
    title: Option<string>,
    status: Option<string>,
    rating: Option<real>,
    createDatetime: Option<Instant>,
    updateDatetime: Option<Instant>,
    createUser: Option<string>,
    updateUser: Option<string>,
    coverImageUrl: Option<string>)

  /** A row of the `ProductMedia` table. */
  datatype ProductMedia = ProductMedia(
    id: int,
    productId: Option<int>,
    mediaType: Option<string>,
    url: Option<string>,
    createDatetime: Option<Instant>,
    updateDatetime: Option<Instant>,
    createUser: Option<string>,
    updateUser: Option<string>)

  /** A row of the `product_feedback` table. */
  datatype ProductFeedback = ProductFeedback(
    id: Option<int>,
    productId: Option<int>,
    userId: Option<int>,
    rating: Option<int>,
    comment: Option<string>,
    createDatetime: Option<Instant>,
    updateDatetime: Option<Instant>,
    createUser: Option<string>,
    updateUser: Option<string>)

  /** What the table stores of a product: everything but the cover URL,
      which is not a column. */
  function Persisted(p: Product): Product {
    p.(coverImageUrl := None)
  }

  /** The columns of the `Products` table. */
  datatype ProductColumn =
    | IdColumn | NameColumn | DescriptionColumn | PriceColumn | StockColumn
    | SellerIdColumn | CategoryColumn | TitleColumn | StatusColumn
    | RatingColumn | CreateDatetimeColumn | UpdateDatetimeColumn
    | CreateUserColumn | UpdateUserColumn

  /** The value a product holds in a column. */
  function ColumnValue(p: Product, col: ProductColumn): SqlValue {
    match col
    case IdColumn => OfInt(p.id)
    case NameColumn => OfText(p.name)
    case DescriptionColumn => OfText(p.description)
    case PriceColumn => OfReal(p.price)
    case StockColumn => OfInt(p.stock)
    case SellerIdColumn => OfInt(p.sellerId)
    case CategoryColumn => OfText(p.category)
    case TitleColumn => OfText(p.title)
    case StatusColumn => OfText(p.status)
    case RatingColumn => OfReal(p.rating)
    case CreateDatetimeColumn => OfInt(p.createDatetime)
    case UpdateDatetimeColumn => OfInt(p.updateDatetime)
    case CreateUserColumn => OfText(p.createUser)
    case UpdateUserColumn => OfText(p.updateUser)
  }

  /** The column's name in the table (camelCase fields map to snake_case). */
  function ColumnName(col: ProductColumn): string {
    match col
    case IdColumn => "id"
    case NameColumn => "name"
    case DescriptionColumn => "description"
    case PriceColumn => "price"
    case StockColumn => "stock"
    case SellerIdColumn => "seller_id"
    case CategoryColumn => "category"
    case TitleColumn => "title"
    case StatusColumn => "status"
    case RatingColumn => "rating"
    case CreateDatetimeColumn => "create_datetime"
    case UpdateDatetimeColumn => "update_datetime"
    case CreateUserColumn => "create_user"
    case UpdateUserColumn => "update_user"
  }

  const AllColumns: seq<ProductColumn> := [
    IdColumn, NameColumn, DescriptionColumn, PriceColumn, StockColumn,
    SellerIdColumn, CategoryColumn, TitleColumn, StatusColumn, RatingColumn,
    CreateDatetimeColumn, UpdateDatetimeColumn, CreateUserColumn, UpdateUserColumn]

  /** The first of `cols` whose name is `n`. */
  function ColumnNamed(n: string, cols: seq<ProductColumn>): (r: Option<ProductColumn>)
    ensures r.Some? ==> r.value in cols && ColumnName(r.value) == n
    ensures r.None? ==> forall col :: col in cols ==> ColumnName(col) != n
  {
    if |cols| == 0 then None
    else if ColumnName(cols[0]) == n then Some(cols[0])
    else ColumnNamed(n, cols[1..])
  }

  /** How the database resolves a column name written into ORDER BY:
      surrounding blanks (space and U+0009..U+000D) are skipped and
      identifiers are case-insensitive.
      Anything that names no column is `None`. */
  function ResolveColumn(name: string): (r: Option<ProductColumn>)
    ensures r.Some? ==> ColumnName(r.value) == JavaStrings.AsciiLower(StripSpace(name))
    ensures r.None? ==> forall col :: ColumnName(col) != JavaStrings.AsciiLower(StripSpace(name))
  {
    forall col ensures col in AllColumns {
      InAllColumns(col);
    }
    ColumnNamed(JavaStrings.AsciiLower(StripSpace(name)), AllColumns)
  }

  /** Distinct columns have distinct names. */
  lemma ColumnNameInjective(a: ProductColumn, b: ProductColumn)
    requires ColumnName(a) == ColumnName(b)
    ensures a == b
  {
  }

  lemma InAllColumns(col: ProductColumn)
    ensures col in AllColumns
  {
    match col
    case IdColumn =>
    case NameColumn =>
    case DescriptionColumn =>
    case PriceColumn =>
    case StockColumn =>
    case SellerIdColumn =>
    case CategoryColumn =>
    case TitleColumn =>
    case StatusColumn =>
    case RatingColumn =>
    case CreateDatetimeColumn =>
    case UpdateDatetimeColumn =>
    case CreateUserColumn =>
    case UpdateUserColumn =>
  }

  /** Ordering rows by one column. */
  function ColumnKey(col: ProductColumn): Product -> SqlValue {
    p => ColumnValue(p, col)
  }

  /** The cover URL is not a column, so no column sees it. */
  lemma ColumnIgnoresCover(p: Product, col: ProductColumn)
    ensures ColumnKey(col)(Persisted(p)) == ColumnKey(col)(p)
  {
  }

  /** Column names use only lower-case letters and underscores. */
  lemma ColumnNameChars(col: ProductColumn)
    ensures forall k :: 0 <= k < |ColumnName(col)| ==> IsIdentifierChar(ColumnName(col)[k])
  {
    match col
    case IdColumn =>
    case NameColumn =>
    case DescriptionColumn =>
    case PriceColumn =>
    case StockColumn =>
    case SellerIdColumn =>
    case CategoryColumn =>
    case TitleColumn =>
    case StatusColumn =>
    case RatingColumn =>
    case CreateDatetimeColumn =>
    case UpdateDatetimeColumn =>
    case CreateUserColumn =>
    case UpdateUserColumn =>
  }

  /** Column names are already stripped and lower case. */
  lemma ColumnNameIsNormal(col: ProductColumn)
    ensures JavaStrings.AsciiLower(StripSpace(ColumnName(col))) == ColumnName(col)
  {
    ColumnNameChars(col);
    IdentifierIsNormal(ColumnName(col));
  }

  /** Every column name resolves back to its column. */
  lemma ResolveColumnName(col: ProductColumn)
    ensures ResolveColumn(ColumnName(col)) == Some(col)
  {
    ColumnNameIsNormal(col);
    var r := ResolveColumn(ColumnName(col));
    ColumnNameInjective(r.value, col);
  }

  /** Blanks and letter case around a column name do not matter. */
  lemma ResolveColumnSkipsBlanks()
    ensures ResolveColumn(" Price\t") == Some(PriceColumn)
  {
    var padded := " Price\t";
    assert BlankPrefix(padded, 1) == 1;
    assert BlankPrefix(padded, 0) == 1;
    assert BlankSuffix(padded, 1, 6) == 6;
    assert BlankSuffix(padded, 1, 7) == 6;
    assert padded[1..6] == "Price";
    assert JavaStrings.AsciiLower("Price") == "price";
    assert JavaStrings.AsciiLower(StripSpace(padded)) == ColumnName(PriceColumn);
    ColumnNameIsNormal(PriceColumn);
    assert ResolveColumn(padded) == ResolveColumn(ColumnName(PriceColumn));
    ResolveColumnName(PriceColumn);
  }

  /** A name whose first character is neither a blank nor a letter nor an
      underscore resolves to nothing. A control character outside
      U+0009..U+000D is such a character: it is part of the name. */
  lemma ResolveColumnKeepsControls(name: string)
    requires |name| > 0 && !IsSqlSpace(name[0])
    requires !IsIdentifierChar(name[0]) && !('A' <= name[0] <= 'Z')
    ensures ResolveColumn(name) == None
  {
    assert BlankPrefix(name, 0) == 0;
    var j := BlankSuffix(name, 0, |name|);
    assert j > 0 && StripSpace(name)[0] == name[0];
    assert JavaStrings.AsciiLower(StripSpace(name))[0] == name[0];
    NoColumnNameStartsWith(name[0]);
  }

  /** U+0001 before a column name is not skipped. */
  lemma ControlBeforeNameResolvesToNothing()
    ensures ResolveColumn("\U{1}price") == None
  {
    ResolveColumnKeepsControls("\U{1}price");
  }

  /** No column name starts with a character outside identifiers. */
  lemma NoColumnNameStartsWith(c: char)
    requires !IsIdentifierChar(c)
    ensures forall col :: |ColumnName(col)| > 0 && ColumnName(col)[0] != c
  {
    forall col ensures |ColumnName(col)| > 0 && ColumnName(col)[0] != c {
      ColumnNameChars(col);
    }
  }
}
