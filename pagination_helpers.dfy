/**
 * The `Page(skip, take)` extension over in-memory and query-backed sequences:
 * count the source, let the builder compute the page, and fetch exactly the
 * items between the page's resolved first and last index.
 */
module PaginationHelpers {
  import opened Wrappers
  import opened Pages
  import opened Builders

  /** One page of results: the source's total count, the page descriptor and its items. */
  datatype PagedList<T> = PagedList(totalCount: int, page: Page, items: seq<T>)

  /** `PagedList.Empty(totalCount, page)`: a page of results with no items. */
  function Empty<T>(totalCount: int, page: Page): (r: PagedList<T>)
    ensures r.items == [] && r.totalCount == totalCount && r.page == page
  {
    PagedList(totalCount, page, [])
  }

  /** `PagedList.Create(totalCount, page, items)`: a page of results holding `items` in order. */
  function Create<T>(totalCount: int, page: Page, items: seq<T>): (r: PagedList<T>)
    ensures r.items == items && r.totalCount == totalCount && r.page == page
  {
    PagedList(totalCount, page, items)
  }

  /**
   * The page of an in-memory source for a constructed builder: the items are the
   * source's elements from the page's first to its last index, nothing otherwise.
   */
  function Paginate<T>(source: seq<T>, b: ItemIndexPageBuilder): (r: PagedList<T>)
    requires b.Valid()
    ensures r.totalCount == |source|
    ensures r.page == GetCurrentPage(b, |source|)
    ensures |r.items| == r.page.ItemCount()
    ensures forall k :: 0 <= k < |r.items| ==> r.items[k] == source[r.page.firstItemIndex + k]
  {
    var page := GetCurrentPage(b, |source|);
    if page.IsEmpty() then
      Empty(|source|, page)
    else
      Create(|source|, page, source[page.firstItemIndex .. page.lastItemIndex + 1])
  }

  /** `source.Page(skip, take)` over an enumerable: construct the builder, then paginate. */
  function PageSeq<T>(source: seq<T>, skip: int, take: Option<int>): (r: Result<PagedList<T>, Error>)
    ensures r.Failure? <==> !ItemIndexPageBuilder(skip, take, false).Valid()
    ensures r.Failure? ==> New(skip, take) == Failure(r.error)
    ensures r.Success? ==> r.value == Paginate(source, ItemIndexPageBuilder(skip, take, false))
  {
    match New(skip, take)
    case Failure(e) => Failure(e)
    case Success(b) => Success(Paginate(source, b))
  }

  // ---------------------------------------------------------------------------
  // The query-backed path: the provider's Skip and Take operators
  // ---------------------------------------------------------------------------

  /** The provider's `Skip(n)`: everything after the first n rows (all rows when n <= 0). */
  function Skip<T>(rows: seq<T>, n: int): (r: seq<T>)
    ensures |r| == if n <= 0 then |rows| else if n >= |rows| then 0 else |rows| - n
    ensures forall k :: 0 <= k < |r| ==> r[k] == rows[k + (if n <= 0 then 0 else n)]
  {
    if n <= 0 then rows else if n >= |rows| then [] else rows[n..]
  }

  /** The provider's `Take(n)`: the first n rows (none when n <= 0, all when n >= the count). */
  function Take<T>(rows: seq<T>, n: int): (r: seq<T>)
    ensures |r| == if n <= 0 then 0 else Min(n, |rows|)
    ensures forall k :: 0 <= k < |r| ==> r[k] == rows[k]
  {
    if n <= 0 then [] else if n >= |rows| then rows else rows[..n]
  }

  /**
   * `source.Page(skip, take)` over a queryable: the count is a count query, and the
   * items are fetched with Skip(firstItemIndex).Take(lastItemIndex - firstItemIndex + 1).
   */
  function PageQuery<T>(source: seq<T>, skip: int, take: Option<int>): (r: Result<PagedList<T>, Error>)
    ensures r.Failure? <==> New(skip, take).Failure?
  {
    match New(skip, take)
    case Failure(e) => Failure(e)
    case Success(b) =>
      var totalCount := |source|;
      var page := GetCurrentPage(b, totalCount);
      if page.IsEmpty() then
        Success(Empty(totalCount, page))
      else
        var items := Take(Skip(source, page.firstItemIndex), page.lastItemIndex - page.firstItemIndex + 1);
        Success(Create(totalCount, page, items))
  }

  /** Skip then Take over an in-range window is the slice of that window. */
  lemma SkipTakeIsSlice<T>(rows: seq<T>, first: int, count: int)
    requires 0 <= first && 1 <= count && first + count <= |rows|
    ensures Take(Skip(rows, first), count) == rows[first .. first + count]
  {
  }

  /** The queryable path gives exactly the enumerable path's result, errors included. */
  lemma QueryableMatchesEnumerable<T>(source: seq<T>, skip: int, take: Option<int>)
    ensures PageQuery(source, skip, take) == PageSeq(source, skip, take)
  {
    var b := ItemIndexPageBuilder(skip, take, false);
    if b.Valid() {
      var page := GetCurrentPage(b, |source|);
      if !page.IsEmpty() {
        SkipTakeIsSlice(source, page.firstItemIndex, page.lastItemIndex - page.firstItemIndex + 1);
      }
    }
  }

  // ---------------------------------------------------------------------------
  // Reading a source page by page
  // ---------------------------------------------------------------------------

  /** The items of the pages of `take` items starting at `skip`, one page after another. */
  function ItemsFrom<T>(source: seq<T>, take: int, skip: nat): seq<T>
    requires take >= 1 && skip % take == 0
    decreases |source| - skip
  {
    if skip >= |source| then
      []
    else
      NextAlignedSkip(skip, take);
      Paginate(source, ItemIndexPageBuilder(skip, Some(take), false)).items + ItemsFrom(source, take, skip + take)
  }

  /** The skip one page on from an aligned skip is aligned too. */
  lemma NextAlignedSkip(skip: nat, take: int)
    requires take >= 1 && skip % take == 0
    ensures (skip + take) % take == 0
  {
    DivMul(skip / take + 1, take);
    AlignedSkip(skip, take);
    assert (skip / take + 1) * take == skip + take;
  }

  /** The page at an aligned skip inside the source holds the source from skip to the page's end. */
  lemma AlignedPageItems<T>(source: seq<T>, take: int, skip: nat)
    requires take >= 1 && skip % take == 0 && skip < |source|
    ensures Paginate(source, ItemIndexPageBuilder(skip, Some(take), false)).items
         == source[skip .. Min(|source|, skip + take)]
  {
  }

  /** Pages from `skip` on hold exactly the source's items from `skip` on, in order. */
  lemma {:induction false} ItemsFromIsSuffix<T>(source: seq<T>, take: int, skip: nat)
    requires take >= 1 && skip % take == 0
    ensures ItemsFrom(source, take, skip) == if skip < |source| then source[skip..] else []
    decreases |source| - skip
  {
    if skip < |source| {
      NextAlignedSkip(skip, take);
      ItemsFromIsSuffix(source, take, skip + take);
      AlignedPageItems(source, take, skip);
      var end := Min(|source|, skip + take);
      assert source[skip..] == source[skip..end] + (if skip + take < |source| then source[skip + take..] else []);
    }
  }

  /** Reading every page of `take` items from the first on reassembles the source. */
  lemma AllPagesReassembleSource<T>(source: seq<T>, take: int)
    requires take >= 1
    ensures ItemsFrom(source, take, 0) == source
  {
    ItemsFromIsSuffix(source, take, 0);
  }
}
