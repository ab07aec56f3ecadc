# Product service: catalog queries, recommendations and feedback

This project models the decision logic of the product service of an online
shop. It covers two service classes:

- The product service builds a database query from optional filter
  criteria. It runs keyword search, filtered listing and filtered-sorted
  listing. It recommends related products and products for a user, based on
  the category the user buys most often. It attaches to each product the
  URL of its first image as a cover. It checks that a product exists before
  updating or deleting it.
- The feedback service lists a product's feedback, optionally sorted by one
  of two allowed columns. It computes a product's average rating over the
  feedback that carries one. It counts a product's comments. It maps the
  update and delete row counts to booleans.

The database is a sequence of rows per table. A query wrapper becomes a list
of clauses, each with SQL's null semantics: a clause on a NULL column holds
for no row. `ORDER BY` is a sort on a key whose NULL values rank lowest, as
in MySQL. `LIMIT` is a cut of the sorted rows. Java's nullable references
are `Option` values. The purchase history, which the service fetches from
the order service, is a parameter.

Modules, one per file:

- `Nullable`: the option type.
- `JavaStrings`: `isEmpty`, Spring's `hasText`, `trim`, substring search,
  and `"asc".equalsIgnoreCase`.
- `SqlValues`: column values, WHERE comparisons, the ORDER BY relation and the blanks the SQL lexer skips.
- `RowOrder`: sorting, `ORDER BY … LIMIT`, and filtering.
- `Entities`: the three tables and the product columns.
- `CoverImage`: cover images.
- `ProductQuery`: search and the two filters.
- `Recommendation`: the two recommendation queries.
- `TableStore`: `updateById` and `deleteById` over a table.
- `ProductCrud`: product update and delete.
- `Feedback`: the feedback service.

Where the code and its comments disagree, the model follows the code:

- Search matches the name only, although one comment says name and
  description.
- The cover is the image row with the smallest id. The comments call it the
  first image.

## Model

| member | source | states |
|---|---|---|
| JavaStrings.Trim | src/main/java/com/nusiss/productservice/service/impl/ProductServiceImpl.java:107 | The trimmed keyword occurs in the keyword at a position where everything before it and everything after it is at or below U+0020. It neither starts nor ends with such a character, so exactly the leading and trailing run is removed. |
| JavaStrings.TrimEmptyIffBlank | src/main/java/com/nusiss/productservice/service/impl/ProductServiceImpl.java:107 | The trimmed keyword is empty exactly when every character of the keyword is at or below U+0020. |
| SqlValues.StripSpace | src/main/java/com/nusiss/productservice/service/impl/ProductServiceImpl.java:225-227 | The token the database reads occurs in the text at a position where everything before and after it is a space or U+0009..U+000D. It neither starts nor ends with such a character. |
| SqlValues.StripSpaceEmptyIffBlank | src/main/java/com/nusiss/productservice/service/impl/ProductServiceImpl.java:225-227 | The token is empty exactly when every character of the text is a space or U+0009..U+000D. |
| JavaStrings.ContainsIffOccurs | src/main/java/com/nusiss/productservice/service/impl/ProductServiceImpl.java:113 | The recursive substring test holds exactly when the word occurs at some position of the name. |
| JavaStrings.AscKeywordAcceptsAsciiCase | src/main/java/com/nusiss/productservice/service/impl/ProductServiceImpl.java:223 | Every ASCII spelling of "asc" in any case counts as ascending. No string whose length is not 3 does. |
| SqlValues.ValueLeTotal | src/main/java/com/nusiss/productservice/service/impl/ProductServiceImpl.java:222-229 | Any two column values, NULL included, are comparable for ORDER BY. |
| SqlValues.ValueLeTransitive | src/main/java/com/nusiss/productservice/service/impl/ProductServiceImpl.java:222-229 | The ORDER BY relation is transitive, so a sort on it is well defined. |
| RowOrder.Sort | src/main/java/com/nusiss/productservice/service/impl/ProductServiceImpl.java:224-228 | Sorting permutes the rows: same multiset, same length. |
| RowOrder.SortSorted | src/main/java/com/nusiss/productservice/service/impl/ProductServiceImpl.java:224-228 | The sorted rows are ordered by the key, ascending or descending as asked. |
| RowOrder.TopK | src/main/java/com/nusiss/productservice/service/impl/ProductServiceImpl.java:283-284 | `ORDER BY key LIMIT n` returns min(n, count) candidate rows, sorted. No candidate left out ranks before a row kept. |
| RowOrder.Where | src/main/java/com/nusiss/productservice/service/impl/ProductFeedbackServiceImpl.java:64-66 | A row that satisfies the condition occurs in the result exactly as often as in the table. A row that does not never occurs. |
| RowOrder.WhereNone | src/main/java/com/nusiss/productservice/service/impl/ProductServiceImpl.java:157-164 | A condition that no row meets selects nothing. |
| RowOrder.WhereAppend | src/main/java/com/nusiss/productservice/service/impl/ProductFeedbackServiceImpl.java:116-119 | Filtering a table extended by rows is filtering each part. |
| Entities.ResolveColumn | src/main/java/com/nusiss/productservice/service/impl/ProductServiceImpl.java:225-227 | A sort column resolves to the column whose snake_case name equals the text without surrounding SQL blanks, ASCII letters lower-cased. A text that names no column resolves to nothing. |
| Entities.ResolveColumnSkipsBlanks | src/main/java/com/nusiss/productservice/service/impl/ProductServiceImpl.java:225-227 | `" Price\t"` resolves to the price column. |
| Entities.ResolveColumnKeepsControls | src/main/java/com/nusiss/productservice/service/impl/ProductServiceImpl.java:225-227 | A text whose first character is no SQL blank, letter or underscore resolves to nothing. This covers control characters outside U+0009..U+000D. |
| Entities.ControlBeforeNameResolvesToNothing | src/main/java/com/nusiss/productservice/service/impl/ProductServiceImpl.java:225-227 | U+0001 followed by `price` resolves to nothing. |
| Entities.ResolveColumnName | src/main/java/com/nusiss/productservice/service/impl/ProductServiceImpl.java:225-227 | Every column's own name resolves back to that column. |
| CoverImage.FirstImage | src/main/java/com/nusiss/productservice/service/impl/ProductServiceImpl.java:246-252 | Finds nothing exactly when the product has no media row of type "image". Otherwise it finds such a row, and no image row of the product has a smaller id. |
| CoverImage.SetCoverImage | src/main/java/com/nusiss/productservice/service/impl/ProductServiceImpl.java:244-257 | Only the cover URL can change. With a null id or no image the product is unchanged. Otherwise the cover is the URL of the smallest-id image row. |
| CoverImage.SetCoverImages | src/main/java/com/nusiss/productservice/service/impl/ProductServiceImpl.java:260-266 | Each product in the list gets its own cover. The list keeps its length and order. |
| CoverImage.CoverComesFromImage | src/main/java/com/nusiss/productservice/entity/Product.java:45-46 | A table row has no cover column. After covers are set, a row has a null cover when it has a null id or no image. Otherwise its cover is the URL of its smallest-id image row. |
| CoverImage.CoversKeepRows | src/main/java/com/nusiss/productservice/service/impl/ProductServiceImpl.java:260-266 | Setting covers changes no stored column of any row. |
| CoverImage.CoverIsSmallestImageId | src/main/java/com/nusiss/productservice/service/impl/ProductServiceImpl.java:246-254 | With image rows 11 and 10 and a video row 3, the cover is image 10's URL. |
| ProductQuery.HoldsAllAppend | src/main/java/com/nusiss/productservice/service/impl/ProductServiceImpl.java:139-169 | Adding clauses to a wrapper ANDs them with the clauses already there. |
| ProductQuery.Select | src/main/java/com/nusiss/productservice/service/impl/ProductServiceImpl.java:172 | `selectList` returns table rows. A row that satisfies every clause is returned as often as the table holds it, and any other row never. |
| ProductQuery.SelectNothingIsAll | src/main/java/com/nusiss/productservice/service/impl/ProductServiceImpl.java:172 | A wrapper with no clause returns the whole table, in order. |
| ProductQuery.HoldsOptional | src/main/java/com/nusiss/productservice/service/impl/ProductServiceImpl.java:142-169 | A clause that is added only when its criterion is present constrains nothing when the criterion is absent. |
| ProductQuery.CriteriaClausesMeaning | src/main/java/com/nusiss/productservice/service/impl/ProductServiceImpl.java:141-169 | A row satisfies the built clauses exactly when it meets each present criterion: name as a substring, category and status by equality, price within inclusive bounds, rating at least the minimum. |
| ProductQuery.NoCriteriaNoClauses | src/main/java/com/nusiss/productservice/service/impl/ProductServiceImpl.java:141-169 | With every criterion null or empty, the wrapper holds no clause. |
| ProductQuery.MatchingRows | src/main/java/com/nusiss/productservice/service/impl/ProductServiceImpl.java:139-172 | A row that meets the criteria is returned as often as the table holds it, and any other row never. |
| ProductQuery.FilterWithoutCriteriaIsStore | src/main/java/com/nusiss/productservice/service/impl/ProductServiceImpl.java:139-172 | With every criterion absent, the filter returns the whole table. |
| ProductQuery.InvertedPriceRangeIsEmpty | src/main/java/com/nusiss/productservice/service/impl/ProductServiceImpl.java:157-164 | A minimum price above the maximum price selects nothing. |
| ProductQuery.BlankNameDiffers | src/main/java/com/nusiss/productservice/service/impl/ProductServiceImpl.java:202-204 | A blank name adds a clause under `filterProducts`'s `isEmpty` test but not under `filterProductsWithSorting`'s `hasText` test. |
| ProductQuery.CoversKeepCriteria | src/main/java/com/nusiss/productservice/service/impl/ProductServiceImpl.java:172-173 | Rows that met the criteria still meet them after their covers are set. |
| ProductQuery.FilterProducts | src/main/java/com/nusiss/productservice/service/impl/ProductServiceImpl.java:137-175 | Every returned product meets the criteria under the `isEmpty` test. The result is the matching rows, each with its cover set, position by position. Table rows carry no cover before it is set. |
| ProductQuery.SearchRows | src/main/java/com/nusiss/productservice/service/impl/ProductServiceImpl.java:112-116 | A row whose non-null name contains the word is returned as often as the table holds it, and any other row never. |
| ProductQuery.SearchProducts | src/main/java/com/nusiss/productservice/service/impl/ProductServiceImpl.java:105-122 | A null or blank keyword gives an empty list. Otherwise the result is the rows whose name contains the trimmed keyword, each with its cover set. Table rows carry no cover before it is set. |
| ProductQuery.SortedMatchingRows | src/main/java/com/nusiss/productservice/service/impl/ProductServiceImpl.java:199-232 | The query fails exactly when sortBy has text that names no column. Otherwise it returns a permutation of the matching rows. When sortBy has no text they are the unsorted matching rows. When it has text they are sorted by that column, ascending exactly when order is "asc" in any case. |
| ProductQuery.FilterProductsWithSorting | src/main/java/com/nusiss/productservice/service/impl/ProductServiceImpl.java:183-235 | Rejects an unknown sort column. Otherwise the records meet the criteria under the `hasText` test and are ordered as asked. They are the sorted matching rows, each with its cover set. The total is their count. Table rows carry no cover before it is set. |
| ProductQuery.CoversKeepOrder | src/main/java/com/nusiss/productservice/service/impl/ProductServiceImpl.java:232-233 | Setting covers keeps rows sorted by any column. |
| Recommendation.SelectById | src/main/java/com/nusiss/productservice/service/impl/ProductServiceImpl.java:274 | Finds a row with the given non-null id, or nothing when the id is null or no row has it. |
| Recommendation.TopRated | src/main/java/com/nusiss/productservice/service/impl/ProductServiceImpl.java:283-284 | The result is the top `limit` candidates by rating, in descending order. |
| Recommendation.RelatedClausesMeaning | src/main/java/com/nusiss/productservice/service/impl/ProductServiceImpl.java:280-282 | A row satisfies the related-products clauses exactly when its category equals the anchor's and its non-null id differs from the anchor's. |
| Recommendation.RelatedRows | src/main/java/com/nusiss/productservice/service/impl/ProductServiceImpl.java:272-286 | Empty when the anchor is missing or has no category. Otherwise it is the top `limit` related rows by rating. |
| Recommendation.RelatedProducts | src/main/java/com/nusiss/productservice/service/impl/ProductServiceImpl.java:272-289 | Empty when the anchor is missing or has no category. Otherwise there are at most `limit` results. Each shares the anchor's category and has another id. They are ordered by rating descending. Each is the corresponding related row with its cover set. Table rows carry no cover before it is set. |
| Recommendation.IdValuesMembership | src/main/java/com/nusiss/productservice/service/impl/ProductServiceImpl.java:318 | A row's id is in the NOT IN list exactly when it is non-null and among the purchased ids. |
| Recommendation.PurchasedRows | src/main/java/com/nusiss/productservice/service/impl/ProductServiceImpl.java:304 | `selectBatchIds` returns each table row whose id is among the purchased ids as often as the table holds it, however often the id is listed, and no other row. |
| Recommendation.Categories | src/main/java/com/nusiss/productservice/service/impl/ProductServiceImpl.java:307-309 | The non-null categories of the purchased rows, each as often as it occurs. The result is empty exactly when every category is null. |
| Recommendation.MostFrequent | src/main/java/com/nusiss/productservice/service/impl/ProductServiceImpl.java:313 | Picks a category that occurs at least as often as every other category. |
| Recommendation.PreferredCategory | src/main/java/com/nusiss/productservice/service/impl/ProductServiceImpl.java:303-313 | Finds nothing exactly when no purchased row has a category. Otherwise the category occurs among the purchases, and no category occurs more often. |
| Recommendation.RecommendClausesMeaning | src/main/java/com/nusiss/productservice/service/impl/ProductServiceImpl.java:316-318 | A row satisfies the recommendation clauses exactly when it is in the category and its non-null id is not a purchased id. |
| Recommendation.RecommendedRows | src/main/java/com/nusiss/productservice/service/impl/ProductServiceImpl.java:296-322 | Empty for a null or empty purchase list, or when no purchase has a category. Otherwise it is the top `limit` rows by rating in the preferred category, excluding purchased ids. |
| Recommendation.TopRecommendedProducts | src/main/java/com/nusiss/productservice/service/impl/ProductServiceImpl.java:296-325 | The same empty cases. Otherwise there are at most `limit` results, each in the preferred category with an id that was not purchased. They are ordered by rating descending. Each is the corresponding recommended row with its cover set. Table rows carry no cover before it is set. |
| TableStore.MatchCount | src/main/java/com/nusiss/productservice/service/impl/ProductServiceImpl.java:74 | The affected-row count is positive exactly when some row has the given non-null id. |
| TableStore.UpdateWhereId | src/main/java/com/nusiss/productservice/service/impl/ProductServiceImpl.java:64 | Rows with the id are rewritten. All other rows stay, in place. |
| TableStore.DeleteWhereId | src/main/java/com/nusiss/productservice/service/impl/ProductServiceImpl.java:74 | Removes every row with the id, and the count drops by their number. Every other row keeps its multiplicity. |
| TableStore.KeptCount | src/main/java/com/nusiss/productservice/service/impl/ProductServiceImpl.java:74 | The rows a delete keeps number the table's rows minus the rows the WHERE clause matched. |
| ProductCrud.MergeWritesNonNullColumns | src/main/java/com/nusiss/productservice/service/impl/ProductServiceImpl.java:63-64 | After the update, each non-id column holds the patch's value when that value is non-null, and its old value otherwise. |
| ProductCrud.WrittenFromIsMerge | src/main/java/com/nusiss/productservice/service/impl/ProductServiceImpl.java:63-64 | Only one row follows that column-wise rule: the merged row. |
| ProductCrud.UpdateProduct | src/main/java/com/nusiss/productservice/service/impl/ProductServiceImpl.java:59-66 | Null, with the table untouched, exactly when no row has the id. Otherwise it returns the product carrying the id. Matched rows take its non-null columns, and other rows stay. |
| ProductCrud.DeleteProduct | src/main/java/com/nusiss/productservice/service/impl/ProductServiceImpl.java:70-75 | True exactly when a row has the id, which is exactly when the table shrinks. It shrinks by the number of such rows. Rows with the id are removed, and every other row keeps its multiplicity. |
| Feedback.FeedbackByProduct | src/main/java/com/nusiss/productservice/service/impl/ProductFeedbackServiceImpl.java:63-67 | A feedback row whose product id equals the non-null argument is returned as often as the table holds it, and any other row never. A null argument gives nothing. |
| Feedback.RatedFeedback | src/main/java/com/nusiss/productservice/service/impl/ProductFeedbackServiceImpl.java:95-98 | A row of the product's feedback with a non-null rating is returned as often as the table holds it, and any other row never. |
| Feedback.AverageRating | src/main/java/com/nusiss/productservice/service/impl/ProductFeedbackServiceImpl.java:93-108 | Null exactly when the product has no rated feedback. Otherwise the average times the number of rated rows is the sum of their ratings. |
| Feedback.RatingSumWithin | src/main/java/com/nusiss/productservice/service/impl/ProductFeedbackServiceImpl.java:104-106 | n ratings within [lo, hi] sum to a value within [n·lo, n·hi]. |
| Feedback.AverageWithinRatings | src/main/java/com/nusiss/productservice/service/impl/ProductFeedbackServiceImpl.java:104-107 | When every rating of the product's rated feedback lies within [lo, hi], so does the average. |
| Feedback.UnratedRowIgnored | src/main/java/com/nusiss/productservice/service/impl/ProductFeedbackServiceImpl.java:95-98 | A feedback row without a rating leaves the average unchanged but adds one to the product's comments. |
| Feedback.AverageOfTwo | src/main/java/com/nusiss/productservice/service/impl/ProductFeedbackServiceImpl.java:104-107 | Two rated rows average to half the sum of their ratings. |
| Feedback.AverageOfFourAndFive | src/main/java/com/nusiss/productservice/service/impl/ProductFeedbackServiceImpl.java:95-119 | Ratings 4 and 5 plus a row without a rating average to 4.5 over 3 comments. |
| Feedback.LongToInt | src/main/java/com/nusiss/productservice/service/impl/ProductFeedbackServiceImpl.java:119 | `intValue()` is a 32-bit value congruent to the count modulo 2^32. It equals the count when that fits. |
| Feedback.CommentCount | src/main/java/com/nusiss/productservice/service/impl/ProductFeedbackServiceImpl.java:114-121 | The number of the product's feedback rows, rated or not, when that number fits an int. It is 0 for a null product id. |
| Feedback.RatedAreCounted | src/main/java/com/nusiss/productservice/service/impl/ProductFeedbackServiceImpl.java:114-121 | There are never more rated rows than comments. |
| Feedback.FeedbackOrderOf | src/main/java/com/nusiss/productservice/service/impl/ProductFeedbackServiceImpl.java:144-157 | Sorting is by rating exactly when sortBy is "rating", and by creation time exactly when it is "create_datetime". Anything else gives no ordering. |
| Feedback.FeedbackListing | src/main/java/com/nusiss/productservice/service/impl/ProductFeedbackServiceImpl.java:134-161 | The records are the product's feedback rows and nothing else, as a permutation. Without an allowed sort column they are the unsorted query result. With one they are sorted by it, ascending exactly when order is "asc" in any case. The total is their count. |
| Feedback.MergeFeedbackWritesNonNullFields | src/main/java/com/nusiss/productservice/service/impl/ProductFeedbackServiceImpl.java:76 | After the update, each non-id column holds the patch's value when that value is non-null, and its old value otherwise. |
| Feedback.MergeFeedbackIsWrittenFrom | src/main/java/com/nusiss/productservice/service/impl/ProductFeedbackServiceImpl.java:76 | A row follows that column-wise rule exactly when it is the merged row. |
| Feedback.MergeFeedbackIdempotent | src/main/java/com/nusiss/productservice/service/impl/ProductFeedbackServiceImpl.java:76 | Writing the same feedback twice has the effect of writing it once. |
| Feedback.UpdateFeedback | src/main/java/com/nusiss/productservice/service/impl/ProductFeedbackServiceImpl.java:75-77 | True exactly when some row has the feedback's id. Matched rows take the feedback's non-null fields, and other rows stay. |
| Feedback.DeleteFeedback | src/main/java/com/nusiss/productservice/service/impl/ProductFeedbackServiceImpl.java:85-87 | True exactly when some row has the id, which is exactly when the table shrinks. The rows with the id are removed, and every other row keeps its multiplicity. |

## Left out

- Paging: `selectPage` cuts one page from the ordered rows and counts the total with a separate query. The models return all ordered rows and their count, so page and size are not parameters.
- `LIKE '%word%'` is modelled as plain substring search. The database's wildcard meaning of `%` and `_` inside the word is left out. So is the case- and accent-insensitive comparison of the usual MySQL collations. Text equality and text ordering likewise compare character codes.
- Prices (`BigDecimal`) and ratings (`Double`) are exact reals, and the average rating is an exact quotient. Double rounding is not modelled.
- Strings are sequences of Unicode scalar values rather than UTF-16 code units. A supplementary character is two code units in Java, but neither unit is at or below U+0020 or whitespace, so `trim`, `isEmpty` and `hasText` give the same answer either way. A Java string may also hold an unpaired surrogate, which has no counterpart here, so such strings are not modelled.
- `limit` is a natural number. A negative limit makes the generated `LIMIT` clause invalid SQL and is not modelled.
- The purchase history comes from the order service over HTTP. Here it is a parameter; a failure of that call propagates in the source and is not modelled.
- Recommendation.RecommendedRows: the purchased ids are non-null integers. A null element in the list, which makes SQL `NOT IN` select nothing, is not modelled.
- ProductQuery.FilterProductsWithSorting: sortBy goes unchecked into `ORDER BY`. The model accepts only a single column name. It ignores ASCII letter case and the blanks around the name: space and U+0009..U+000D. Any other text is the database's rejection, although the database would accept some SQL expressions.
- RowOrder.Sort: the database may order rows with equal keys either way. The model fixes one order, but its contracts state only sortedness and the permutation.
- Recommendation.MostFrequent: `Collections.max` over a `HashMap` picks an unspecified category when counts tie. The contract states only maximality.
- ProductCrud.UpdateProduct: an update whose product has no non-null field besides the id produces an `UPDATE` with an empty `SET`, which the database rejects. The model treats it as leaving the matched row unchanged.
- Feedback.UpdateFeedback: the same empty-`SET` case is modelled the same way.
- Timestamps are integers. Nothing fills `update_datetime` automatically, because no fill handler is part of the service.
- Concurrency between the existence check and the update or delete in `updateProduct` and `deleteProduct` is not modelled.
- Plain CRUD passthroughs are not modelled: `createProduct`, `getAllProducts`, `getProductById`, `getProductPage`, `createFeedback`, `getFeedbackById` and `getAllFeedback`. Each one is a single mapper call with no decision logic.
- The controllers and the media service are not modelled. They do HTTP routing, file storage and UUID generation. The older duplicate `service/ProductServiceImpl.java` is not part of this model.
