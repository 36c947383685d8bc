# Pagination page arithmetic in Dafny

This project models the page arithmetic of the Pagination library. The model is built from the behaviour its two test suites assert. The library's implementation files are not part of this model.

- An `ItemIndexPageBuilder` is built from a `skip`, an optional `take` and a `restrictToLastPage` flag. Construction validates them.
- `GetCurrentPage(totalCount)` turns the builder and a total count into a `Page(pageNumber, pageSize, isLastPage, firstItemIndex, lastItemIndex)`.
- `GetPageContainingItem(itemIndex, totalNumberOfItems)` finds the page, of the builder's size, that holds an item.
- `source.Page(skip, take)` works over an enumerable or a queryable source. It counts the source, computes the page and returns a `PagedList` holding the items from the page's first index through its last.

Modules:

- `Wrappers` (`wrappers.dfy`): `Option` (for the optional take) and `Result` (for argument errors).
- `Pages` (`page.dfy`): the `Page` value, the `int.MaxValue` sentinel page size, the `-1` "no item" index, and the page invariant `ValidFor`.
- `Builders` (`item_index_page_builder.dfy`): the builder, its validation, `GetCurrentPage`, `GetPageContainingItem` and their properties.
- `PaginationHelpers` (`pagination_helpers.dfy`): `PagedList`, `Empty`/`Create`, the enumerable path (`PageSeq`), the queryable path (`PageQuery`, built from the provider's `Skip`/`Take`) and the page-by-page reading of a source.
- `BuilderScenarios`, `HelperScenarios`: one lemma per test case, stating the exact expected value.

Everything is pure: datatypes, functions and lemmas. The builder is immutable and every call returns a fresh value.

Behaviour the tests fix that a reader might not expect:

- With no take, the page number is 1 when skip is 0 and 2 when skip is positive (tests at `ItemIndexPageBuilderTests.cs:89-99` and `PaginationHelpersTests.cs:18-43`). An unbounded page could otherwise be expected to be page 1 always.
- A skip past the end, without restriction and over a non-empty source, gives `isLastPage = false` (`ItemIndexPageBuilderTests.cs:130-140`). This is kept as written. No further page can hold items, so the flag reads oddly, but the tests assert it.

Cases no test covers, resolved as follows:

- No take and `0 < totalCount <= skip`: an empty page (`-1`, `-1`) that is the last page. No clamping applies without a take.
- No take: the last index is `min(totalCount, skip + int.MaxValue) - 1`. This is `totalCount - 1` for every int-sized count (`UnboundedPage`).
- A take, an empty source and a skip at or past it: the page is last and empty. Its number is the requested one, or 1 when restricted to the last page.
- Constructor checks run in this order: skip, then take, then "multiple of take".
- `GetPageContainingItem` first rejects `totalNumberOfItems < 1`, then `itemIndex >= totalNumberOfItems`, and also rejects a negative `itemIndex`.

## Model

| member | source | states |
|---|---|---|
| `Builders.New` | Pagination.Tests/ItemIndexPageBuilderTests.cs:16-43 | construction succeeds exactly when skip >= 0, take (if given) >= 1 and skip is a multiple of take; skip < 0 fails naming `skip` and its value with rule ">= 0"; take < 1 fails naming `take` and its value with rule ">= 1"; a valid skip and take where skip is not a multiple of take fails with `SkipNotMultipleOfTake(skip, take)` |
| `Builders.GetCurrentPage` | Pagination.Tests/ItemIndexPageBuilderTests.cs:47-166 | the page always satisfies the page invariant (positive number and size, both indices -1 or a non-empty in-range range no longer than the page size, a range reaching the end is last); its size is the take or int.MaxValue; an empty source gives a terminal empty page; no take gives a last page; a skip inside the source starts the page at skip with the requested page number |
| `Builders.UnboundedPage` | Pagination.Tests/ItemIndexPageBuilderTests.cs:50-99 | with no take over an int-sized source, the page is (1 if skip = 0 else 2, int.MaxValue, last, skip, total-1), or has -1 indices when skip >= total |
| `Builders.BoundedPageInRange` | Pagination.Tests/ItemIndexPageBuilderTests.cs:101-127 | with a take and skip < total: page number skip/take+1, first index (pageNumber-1)*take, last index min(total, skip+take)-1, and the page is last exactly when skip+take >= total |
| `Builders.EmptySourceWithTake` | Pagination.Tests/ItemIndexPageBuilderTests.cs:62-73 | with a take, an empty source gives Page(1 if restricted to the last page, else skip/take+1; take; last; -1; -1) |
| `Builders.PastEndKeepsRequestedPage` | Pagination.Tests/ItemIndexPageBuilderTests.cs:129-140 | an unrestricted skip past the end of a non-empty source gives (skip/take+1, take, not last, -1, -1) |
| `Builders.PastEndSnapsToLastPage` | Pagination.Tests/ItemIndexPageBuilderTests.cs:142-166 | a restricted skip past the end snaps to the page whose range starts inside the source and reaches its end; it is last, runs from (pageNumber-1)*take to total-1, and equals the page the builder gives when asked for that page's skip |
| `Builders.LastPageNumberIsUnique` | Pagination.Tests/ItemIndexPageBuilderTests.cs:142-166 | the snapped page number is the only n with (n-1)*take < total <= n*take, i.e. ceil(total/take) |
| `Builders.NextPageFollows` | Pagination.Tests/ItemIndexPageBuilderTests.cs:114-127 | moving skip on by one take within the source moves to page number + 1, starting at the previous page's last index + 1, and the earlier page is not last |
| `Builders.BoundedPageShape` | Pagination.Tests/ItemIndexPageBuilderTests.cs:101-166 | every bounded page that holds items starts on a multiple of take and ends at min(total, first+take)-1 |
| `Builders.GetPageContainingItem` | Pagination.Tests/ItemIndexPageBuilderTests.cs:172-202 | fails exactly when totalNumberOfItems < 1, itemIndex >= totalNumberOfItems or itemIndex < 0, with an error naming `totalNumberOfItems` (rule ">= 1") or `itemIndex` (rule "< total" or ">= 0") and the offending value; a found page satisfies the page invariant and has the builder's page size |
| `Builders.PageStart` | Pagination.Tests/ItemIndexPageBuilderTests.cs:230-259 | the skip of the page holding an item is a valid skip for the builder; with a take it is the start s of the window s <= itemIndex < s + take, and with no take it is the item index itself |
| `Builders.PageContainingItemHoldsIt` | Pagination.Tests/ItemIndexPageBuilderTests.cs:204-259 | for an existing item the page found holds it (first <= itemIndex <= last), has page number itemIndex/take+1 (1 or 2 with no take), and is the page the builder gives for that page's start |
| `Builders.PageContainingItemIgnoresSkip` | Pagination.Tests/ItemIndexPageBuilderTests.cs:204-240 | the result does not depend on the builder's own skip |
| `Builders.UnboundedPageContainingItem` | Pagination.Tests/ItemIndexPageBuilderTests.cs:204-227 | with no take, the page holding an item is the current page for a skip equal to that item index |
| `Builders.PagesPartitionItems` | Pagination.Tests/ItemIndexPageBuilderTests.cs:243-259 | with a take, an item lies in a builder's page exactly when that page starts where the page holding the item starts, so pages never overlap |
| `PaginationHelpers.Empty` | Pagination.Tests/PaginationHelpersTests.cs:27-28 | `PagedList.Empty(totalCount, page)` holds no items and carries the given total and page |
| `PaginationHelpers.Create` | Pagination.Tests/PaginationHelpersTests.cs:41-42 | `PagedList.Create(totalCount, page, items)` holds exactly the given items, total and page |
| `PaginationHelpers.AlignedPageItems` | Pagination.Tests/PaginationHelpersTests.cs:46-70 | the page at an aligned skip inside the source holds exactly source[skip .. min(total, skip + take)] |
| `PaginationHelpers.Paginate` | Pagination.Tests/PaginationHelpersTests.cs:32-83 | the list carries the source's length as total and the builder's current page; it has as many items as the page spans, and item k is source[firstItemIndex + k] |
| `PaginationHelpers.PageSeq` | Pagination.Tests/PaginationHelpersTests.cs:14-84 | the enumerable `Page(skip, take)` fails exactly when the arguments are invalid, with the constructor's error; otherwise it is the pagination of the source by the unrestricted builder |
| `PaginationHelpers.Skip` | Pagination.Tests/PaginationHelpersTests.cs:86-155 | models the query provider's LINQ `Skip` operator that the queryable path applies to the `AsQueryable()` sources of these tests: it keeps all rows for n <= 0, none for n >= count, and otherwise the rows from n on, in order |
| `PaginationHelpers.Take` | Pagination.Tests/PaginationHelpersTests.cs:86-155 | models the query provider's LINQ `Take` operator that the queryable path applies after `Skip`: it keeps no rows for n <= 0 and otherwise the first min(n, count) rows, in order |
| `PaginationHelpers.PageQuery` | Pagination.Tests/PaginationHelpersTests.cs:86-155 | the queryable `Page(skip, take)` fails exactly when construction fails |
| `PaginationHelpers.QueryableMatchesEnumerable` | Pagination.Tests/PaginationHelpersTests.cs:86-155 | for every source, skip and take, the queryable path gives exactly the enumerable path's result, errors included |
| `PaginationHelpers.ItemsFromIsSuffix` | Pagination.Tests/PaginationHelpersTests.cs:46-83 | reading the pages of a take from an aligned skip onwards yields exactly the source from that skip on |
| `PaginationHelpers.AllPagesReassembleSource` | Pagination.Tests/PaginationHelpersTests.cs:46-83 | concatenating every page from the first yields the source: pages neither lose, repeat nor reorder items |
| `BuilderScenarios.RejectsSkipLessThanZero` | Pagination.Tests/ItemIndexPageBuilderTests.cs:16-23 | `(-1, null)` fails naming skip = -1 |
| `BuilderScenarios.RejectsTakeLessThanOne` | Pagination.Tests/ItemIndexPageBuilderTests.cs:26-33 | `(0, 0)` fails naming take = 0 |
| `BuilderScenarios.RejectsSkipNotMultipleOfTake` | Pagination.Tests/ItemIndexPageBuilderTests.cs:36-43 | `(2, 5)` fails: skip is not a multiple of take |
| `BuilderScenarios.EmptySourceWithUnboundedTake` | Pagination.Tests/ItemIndexPageBuilderTests.cs:50-60 | `(0, null)` over 0 items gives Page(1, int.MaxValue, true, -1, -1) |
| `BuilderScenarios.EmptySourceWithBoundedTake` | Pagination.Tests/ItemIndexPageBuilderTests.cs:63-73 | `(0, 5)` over 0 items gives Page(1, 5, true, -1, -1) |
| `BuilderScenarios.UnboundedTakeSpansWholeSource` | Pagination.Tests/ItemIndexPageBuilderTests.cs:76-86 | `(0, null)` over 50 gives Page(1, int.MaxValue, true, 0, 49) |
| `BuilderScenarios.UnboundedTakeAfterSkipIsPageTwo` | Pagination.Tests/ItemIndexPageBuilderTests.cs:89-99 | `(10, null)` over 50 gives Page(2, int.MaxValue, true, 10, 49) |
| `BuilderScenarios.ZeroSkipIsPageOne` | Pagination.Tests/ItemIndexPageBuilderTests.cs:102-112 | `(0, 10)` over 50 gives Page(1, 10, false, 0, 9) |
| `BuilderScenarios.LaterSkipsGiveLaterPageNumbers` | Pagination.Tests/ItemIndexPageBuilderTests.cs:114-127 | skips 10 and 20 with take 10 give pages 2 and 3 |
| `BuilderScenarios.SkipPastTotalStillSkips` | Pagination.Tests/ItemIndexPageBuilderTests.cs:130-140 | `(60, 10)` over 50 gives Page(7, 10, false, -1, -1) |
| `BuilderScenarios.SkipPastTotalRestrictsToLastPage` | Pagination.Tests/ItemIndexPageBuilderTests.cs:143-153 | `(60, 10, true)` over 50 gives Page(5, 10, true, 40, 49) |
| `BuilderScenarios.SkipPastTotalRestrictsToLastPartialPage` | Pagination.Tests/ItemIndexPageBuilderTests.cs:156-166 | `(60, 10, true)` over 53 gives Page(6, 10, true, 50, 52) |
| `BuilderScenarios.RejectsTotalLessThanOne` | Pagination.Tests/ItemIndexPageBuilderTests.cs:172-186 | totals 0 and -1 fail naming totalNumberOfItems with rule ">= 1" |
| `BuilderScenarios.RejectsItemIndexNotBelowTotal` | Pagination.Tests/ItemIndexPageBuilderTests.cs:188-202 | item indices 26 and 27 of 26 fail naming itemIndex with rule "< 26" |
| `BuilderScenarios.ItemPageWithUnboundedTakeIgnoresSkip` | Pagination.Tests/ItemIndexPageBuilderTests.cs:205-215 | `(4, null)`, item 0 of 50 gives Page(1, int.MaxValue, true, 0, 49) |
| `BuilderScenarios.ItemPageWithUnboundedTakeAfterFirstItem` | Pagination.Tests/ItemIndexPageBuilderTests.cs:218-228 | `(0, null)`, item 10 of 50 gives Page(2, int.MaxValue, true, 10, 49) |
| `BuilderScenarios.FirstItemIsOnPageOne` | Pagination.Tests/ItemIndexPageBuilderTests.cs:231-241 | `(10, 10)`, item 0 of 50 gives Page(1, 10, false, 0, 9) |
| `BuilderScenarios.LaterItemsGiveLaterPageNumbers` | Pagination.Tests/ItemIndexPageBuilderTests.cs:243-259 | with take 10, items 10, 11, 15 and 19 are on page 2 and item 20 on page 3 |
| `HelperScenarios.EmptySourceGivesEmptyList` | Pagination.Tests/PaginationHelpersTests.cs:18-28 | both paths over an empty source with skip 2 and no take give Empty(0, Page(2, int.MaxValue, true, -1, -1)) |
| `HelperScenarios.SkipsAppropriateNumber` | Pagination.Tests/PaginationHelpersTests.cs:32-43 | both paths over 1..9 with skip 2 and no take give Create(9, Page(2, int.MaxValue, true, 2, 8), [3..9]) |
| `HelperScenarios.TakesAppropriateNumber` | Pagination.Tests/PaginationHelpersTests.cs:46-57 | both paths over 1..9 with skip 0 and take 2 give Create(9, Page(1, 2, false, 0, 1), [1, 2]) |
| `HelperScenarios.SkipsAndTakesAppropriateNumber` | Pagination.Tests/PaginationHelpersTests.cs:60-70 | both paths over 1..9 with skip 4 and take 2 give Create(9, Page(3, 2, false, 4, 5), [5, 6]) |
| `HelperScenarios.AllowsPagePastLastItem` | Pagination.Tests/PaginationHelpersTests.cs:73-83 | both paths over 1..9 with skip 50 and take 2 give Empty(9, Page(26, 2, false, -1, -1)) |

## Left out

- The implementation files of `ItemIndexPageBuilder`, `Page`, `PagedList` and `PaginationHelpers` are not part of this model. The model follows the behaviour the test suites assert. Cases they leave open are resolved as listed above.
- Exception message text, including its line breaks: an error is a datatype value holding the parameter name, its value and the rule it broke.
- Deferred execution and query-provider behaviour of `IQueryable`, and `ImmutableList`: a queryable source is a sequence, with its count as the length and the provider's `Skip`/`Take` as sequence functions.
- 32-bit overflow: integers are mathematical. `skip + take` cannot wrap around. `int.MaxValue` is the reported page size of an unbounded page, and it also enters the last-index arithmetic `min(totalCount, skip + int.MaxValue) - 1` with unbounded integers, so `skip + int.MaxValue` never overflows there.
- Negative totals: `GetCurrentPage` takes `totalCount` as a `nat`, because only a source's count reaches it. What the library does with a negative total is outside the model.
- Test-framework assertions (`BeEquivalentTo`, `ShouldBeEquivalentTo`): structural equivalence is datatype equality.
- Purity and idempotence (the same call gives the same page) come from modelling every operation as a Dafny function, so no lemma states them.
