/**
 * The item-index page builder: validated skip/take parameters and the page
 * arithmetic that turns them and a total count into a `Page`.
 */
module Builders {
  import opened Wrappers
  import opened Pages

  /** The rule an out-of-range argument broke. */
  datatype Rule = AtLeast(min: int) | LessThan(bound: int)

  /** The argument errors the builder raises, naming the parameter and its value. */
  datatype Error =
    | ArgumentOutOfRange(paramName: string, actualValue: int, rule: Rule)
    | SkipNotMultipleOfTake(skip: int, take: int)

  /** The builder's construction parameters; `None` for `take` means unbounded. */
  datatype ItemIndexPageBuilder = ItemIndexPageBuilder(skip: int, take: Option<int>, restrictToLastPage: bool)
  {
    /** What construction guarantees: skip >= 0, take >= 1 and skip on a page boundary. */
    predicate Valid()
    {
      && skip >= 0
      && (take.Some? ==> take.value >= 1 && skip % take.value == 0)
    }

    /** The effective page size: the take, or int.MaxValue when unbounded. */
    function PageSize(): int
    {
      match take
      case Some(t) => t
      case None => IntMaxValue
    }

    /** The page number the skip asks for, before any clamping. */
    function RequestedPageNumber(): int
      requires Valid()
    {
      match take
      case Some(t) => skip / t + 1
      case None => if skip == 0 then 1 else 2
    }
  }

  /** The constructor: validates skip, then take, then that skip is a multiple of take. */
  function New(skip: int, take: Option<int>, restrictToLastPage: bool := false): (r: Result<ItemIndexPageBuilder, Error>)
    ensures r.Success? <==> ItemIndexPageBuilder(skip, take, restrictToLastPage).Valid()
    ensures r.Success? ==> r.value == ItemIndexPageBuilder(skip, take, restrictToLastPage)
    ensures skip < 0 ==> r == Failure(ArgumentOutOfRange("skip", skip, AtLeast(0)))
    ensures skip >= 0 && take.Some? && take.value < 1 ==>
              r == Failure(ArgumentOutOfRange("take", take.value, AtLeast(1)))
    ensures skip >= 0 && take.Some? && take.value >= 1 && skip % take.value != 0 ==>
              r == Failure(SkipNotMultipleOfTake(skip, take.value))
  {
    if skip < 0 then
      Failure(ArgumentOutOfRange("skip", skip, AtLeast(0)))
    else if take.Some? && take.value < 1 then
      Failure(ArgumentOutOfRange("take", take.value, AtLeast(1)))
    else if take.Some? && skip % take.value != 0 then
      Failure(SkipNotMultipleOfTake(skip, take.value))
    else
      Success(ItemIndexPageBuilder(skip, take, restrictToLastPage))
  }

  /** The number of pages of `size` items needed to hold `n` items. */
  function PageCount(n: nat, size: int): (c: nat)
    requires size >= 1
  {
    (n + size - 1) / size
  }

  /** Arithmetic facts about division used by the page computations. */
  lemma DivMul(k: int, t: int)
    requires t >= 1
    ensures (k * t) / t == k
    ensures (k * t) % t == 0
  {
    var q, r := (k * t) / t, (k * t) % t;
    assert q * t + r == k * t && 0 <= r < t;
    assert (k - q) * t == r;
    if k - q >= 1 {
      MulLe(1, k - q, t);
    } else if k - q <= -1 {
      MulLe(k - q, -1, t);
    }
  }

  /** A multiple of t is (its quotient) times t. */
  lemma AlignedSkip(skip: int, t: int)
    requires t >= 1 && skip % t == 0
    ensures (skip / t) * t == skip
  {
  }

  /** The quotient bounds an index between the start of its page and the start of the next. */
  lemma DivBounds(i: int, t: int)
    requires t >= 1
    ensures (i / t) * t <= i < (i / t) * t + t
  {
  }

  /** The last page of a non-empty collection starts inside it and ends at or after its end. */
  lemma PageCountBounds(n: nat, t: int)
    requires t >= 1 && n >= 1
    ensures PageCount(n, t) >= 1
    ensures (PageCount(n, t) - 1) * t < n <= PageCount(n, t) * t
  {
    var c := PageCount(n, t);
    var r := (n + t - 1) % t;
    assert n + t - 1 == c * t + r && 0 <= r < t;
    assert (c - 1) * t == c * t - t;
  }

  /**
   * GetCurrentPage: the page for this builder's skip and take over `totalCount` items.
   * A skip inside the collection spans skip .. min(total, skip + size) - 1; a skip at or
   * past the end gives an empty, non-last page unless the source is empty (terminal) or
   * the builder restricts to the last page (snap to the last page that holds items).
   */
  function GetCurrentPage(b: ItemIndexPageBuilder, totalCount: nat): (p: Page)
    requires b.Valid()
    ensures p.ValidFor(totalCount)
    ensures p.pageSize == b.PageSize()
    ensures totalCount == 0 ==> p.isLastPage && p.IsEmpty()
    ensures b.take.None? ==> p.isLastPage && p.pageNumber == b.RequestedPageNumber()
    ensures b.skip < totalCount ==> p.firstItemIndex == b.skip && p.pageNumber == b.RequestedPageNumber()
  {
    var size := b.PageSize();
    if b.skip < totalCount then
      var last := Min(totalCount, b.skip + size) - 1;
      Page(b.RequestedPageNumber(), size, b.take.None? || last == totalCount - 1, b.skip, last)
    else if totalCount == 0 then
      Page(if b.take.Some? && b.restrictToLastPage then 1 else b.RequestedPageNumber(), size, true, NoItem, NoItem)
    else if b.take.Some? && b.restrictToLastPage then
      var lastPage := PageCount(totalCount, size);
      PageCountBounds(totalCount, size);
      Page(lastPage, size, true, (lastPage - 1) * size, totalCount - 1)
    else
      Page(b.RequestedPageNumber(), size, b.take.None?, NoItem, NoItem)
  }

  /**
   * GetPageContainingItem: the page, of this builder's size, that holds item `itemIndex`
   * of `totalNumberOfItems`; the builder's own skip plays no part.
   */
  function GetPageContainingItem(b: ItemIndexPageBuilder, itemIndex: int, totalNumberOfItems: int): (r: Result<Page, Error>)
    requires b.Valid()
    ensures r.Failure? <==> totalNumberOfItems < 1 || itemIndex >= totalNumberOfItems || itemIndex < 0
    ensures totalNumberOfItems < 1 ==>
              r == Failure(ArgumentOutOfRange("totalNumberOfItems", totalNumberOfItems, AtLeast(1)))
    ensures totalNumberOfItems >= 1 && itemIndex >= totalNumberOfItems ==>
              r == Failure(ArgumentOutOfRange("itemIndex", itemIndex, LessThan(totalNumberOfItems)))
    ensures 0 > itemIndex && totalNumberOfItems >= 1 ==>
              r == Failure(ArgumentOutOfRange("itemIndex", itemIndex, AtLeast(0)))
    ensures r.Success? ==> r.value.ValidFor(totalNumberOfItems) && r.value.pageSize == b.PageSize()
  {
    if totalNumberOfItems < 1 then
      Failure(ArgumentOutOfRange("totalNumberOfItems", totalNumberOfItems, AtLeast(1)))
    else if itemIndex >= totalNumberOfItems then
      Failure(ArgumentOutOfRange("itemIndex", itemIndex, LessThan(totalNumberOfItems)))
    else if itemIndex < 0 then
      Failure(ArgumentOutOfRange("itemIndex", itemIndex, AtLeast(0)))
    else
      Success(GetCurrentPage(b.(skip := PageStart(b, itemIndex)), totalNumberOfItems))
  }

  /** The skip of the page (of this builder's size) that holds item `itemIndex`. */
  function PageStart(b: ItemIndexPageBuilder, itemIndex: nat): (s: nat)
    requires b.Valid()
    ensures s <= itemIndex
    ensures b.(skip := s).Valid()
    ensures b.take.Some? ==> itemIndex < s + b.take.value
    ensures b.take.None? ==> s == itemIndex
  {
    match b.take
    case None => itemIndex
    case Some(t) =>
      DivMul(itemIndex / t, t);
      DivBounds(itemIndex, t);
      (itemIndex / t) * t
  }

  // ---------------------------------------------------------------------------
  // Properties of GetCurrentPage
  // ---------------------------------------------------------------------------

  /** Unbounded take over an int-sized collection: the whole rest of the collection, always last. */
  lemma UnboundedPage(b: ItemIndexPageBuilder, totalCount: nat)
    requires b.Valid() && b.take.None? && totalCount <= IntMaxValue
    ensures GetCurrentPage(b, totalCount) ==
              Page(if b.skip == 0 then 1 else 2, IntMaxValue, true,
                   if b.skip < totalCount then b.skip else NoItem,
                   if b.skip < totalCount then totalCount - 1 else NoItem)
  {
  }

  /**
   * Bounded take with the skip inside the collection: the page numbered skip / take + 1,
   * which starts at (pageNumber - 1) * take, ends at min(total, skip + take) - 1, and is
   * the last page exactly when it reaches the end.
   */
  lemma BoundedPageInRange(b: ItemIndexPageBuilder, totalCount: nat)
    requires b.Valid() && b.take.Some? && b.skip < totalCount
    ensures var p := GetCurrentPage(b, totalCount);
            && p.pageNumber == b.skip / b.take.value + 1
            && p.firstItemIndex == (p.pageNumber - 1) * b.take.value
            && p.lastItemIndex == Min(totalCount, b.skip + b.take.value) - 1
            && (p.isLastPage <==> b.skip + b.take.value >= totalCount)
  {
  }

  /**
   * An empty source with a take gives a terminal empty page: page 1 when restricted to
   * the last page, otherwise the requested page number.
   */
  lemma EmptySourceWithTake(b: ItemIndexPageBuilder)
    requires b.Valid() && b.take.Some?
    ensures GetCurrentPage(b, 0)
         == Page(if b.restrictToLastPage then 1 else b.skip / b.take.value + 1, b.take.value, true, NoItem, NoItem)
  {
  }

  /** A skip past the end, without restriction, keeps the requested page number but spans nothing. */
  lemma PastEndKeepsRequestedPage(b: ItemIndexPageBuilder, totalCount: nat)
    requires b.Valid() && b.take.Some? && !b.restrictToLastPage && 0 < totalCount <= b.skip
    ensures GetCurrentPage(b, totalCount) == Page(b.skip / b.take.value + 1, b.take.value, false, NoItem, NoItem)
  {
  }

  /**
   * A skip past the end, with restriction, snaps to the last page that holds items: the
   * page count is the least page number whose pages cover the collection, the page is
   * last and runs to the final item, and it is the page the builder gives when asked
   * for that page's skip directly.
   */
  lemma PastEndSnapsToLastPage(b: ItemIndexPageBuilder, totalCount: nat)
    requires b.Valid() && b.take.Some? && b.restrictToLastPage && 0 < totalCount <= b.skip
    ensures var p := GetCurrentPage(b, totalCount);
            var t := b.take.value;
            && p.isLastPage
            && (p.pageNumber - 1) * t < totalCount <= p.pageNumber * t
            && p.firstItemIndex == (p.pageNumber - 1) * t
            && p.lastItemIndex == totalCount - 1
            && b.(skip := p.firstItemIndex).Valid()
            && p == GetCurrentPage(b.(skip := p.firstItemIndex), totalCount)
  {
    var t := b.take.value;
    var c := PageCount(totalCount, t);
    PageCountBounds(totalCount, t);
    var start := (c - 1) * t;
    DivMul(c - 1, t);
    assert start + t == c * t;
    var direct := b.(skip := start);
    assert direct.Valid() && direct.skip < totalCount;
    assert direct.RequestedPageNumber() == c;
    assert Min(totalCount, start + t) == totalCount;
    assert GetCurrentPage(direct, totalCount) == Page(c, t, true, start, totalCount - 1);
    assert GetCurrentPage(b, totalCount) == Page(c, t, true, start, totalCount - 1);
  }

  /** The snapped page number is the only one whose page starts inside and reaches the end. */
  lemma LastPageNumberIsUnique(totalCount: nat, t: int, n: int)
    requires t >= 1 && totalCount >= 1
    requires (n - 1) * t < totalCount <= n * t
    ensures n == PageCount(totalCount, t)
  {
    var c := PageCount(totalCount, t);
    PageCountBounds(totalCount, t);
    if n < c {
      MulLe(n, c - 1, t);
    } else if n > c {
      MulLe(c, n - 1, t);
    }
  }

  /**
   * Moving the skip on by one take, while both pages start inside the collection, moves
   * to the next page number, and that page starts right after the current one ends.
   */
  lemma NextPageFollows(b: ItemIndexPageBuilder, totalCount: nat)
    requires b.Valid() && b.take.Some? && b.skip + b.take.value < totalCount
    ensures b.(skip := b.skip + b.take.value).Valid()
    ensures var p := GetCurrentPage(b, totalCount);
            var q := GetCurrentPage(b.(skip := b.skip + b.take.value), totalCount);
            && q.pageNumber == p.pageNumber + 1
            && q.firstItemIndex == p.lastItemIndex + 1
            && !p.isLastPage
  {
    var t := b.take.value;
    var k := b.skip / t;
    AlignedSkip(b.skip, t);
    assert b.skip + t == (k + 1) * t;
    DivMul(k + 1, t);
  }

  // ---------------------------------------------------------------------------
  // Properties of GetPageContainingItem
  // ---------------------------------------------------------------------------

  /**
   * The page found for an existing item holds that item, its number is itemIndex / take + 1
   * (1 or 2 when unbounded, as for a skip of itemIndex), and it is the page the builder
   * gives for the skip at which that page starts.
   */
  lemma PageContainingItemHoldsIt(b: ItemIndexPageBuilder, itemIndex: int, totalNumberOfItems: int)
    requires b.Valid() && 0 <= itemIndex < totalNumberOfItems
    ensures var r := GetPageContainingItem(b, itemIndex, totalNumberOfItems);
            && r.Success?
            && r.value.firstItemIndex <= itemIndex <= r.value.lastItemIndex
            && r.value.pageNumber == (match b.take
                                      case Some(t) => itemIndex / t + 1
                                      case None => if itemIndex == 0 then 1 else 2)
            && r.value == GetCurrentPage(b.(skip := PageStart(b, itemIndex)), totalNumberOfItems)
  {
  }

  /** The builder's own skip does not affect which page holds an item. */
  lemma PageContainingItemIgnoresSkip(b: ItemIndexPageBuilder, otherSkip: int, itemIndex: int, totalNumberOfItems: int)
    requires b.Valid() && b.(skip := otherSkip).Valid()
    ensures GetPageContainingItem(b, itemIndex, totalNumberOfItems)
         == GetPageContainingItem(b.(skip := otherSkip), itemIndex, totalNumberOfItems)
  {
  }

  /** With an unbounded take the page holding an item is the page for a skip of that index. */
  lemma UnboundedPageContainingItem(b: ItemIndexPageBuilder, itemIndex: int, totalNumberOfItems: int)
    requires b.Valid() && b.take.None? && 0 <= itemIndex < totalNumberOfItems
    ensures GetPageContainingItem(b, itemIndex, totalNumberOfItems)
         == Success(GetCurrentPage(b.(skip := itemIndex), totalNumberOfItems))
  {
  }

  /** A bounded page that holds items starts on a page boundary and runs for at most one page. */
  lemma BoundedPageShape(b: ItemIndexPageBuilder, totalCount: nat)
    requires b.Valid() && b.take.Some? && !GetCurrentPage(b, totalCount).IsEmpty()
    ensures var p := GetCurrentPage(b, totalCount);
            && p.firstItemIndex % b.take.value == 0
            && p.lastItemIndex == Min(totalCount, p.firstItemIndex + b.take.value) - 1
  {
    if b.skip >= totalCount {
      PastEndSnapsToLastPage(b, totalCount);
    }
  }

  /**
   * Bounded pages partition the items: item i lies in the page the builder gives exactly
   * when that page starts where the page holding item i starts.
   */
  lemma PagesPartitionItems(b: ItemIndexPageBuilder, totalCount: nat, itemIndex: nat)
    requires b.Valid() && b.take.Some? && itemIndex < totalCount
    ensures var p := GetCurrentPage(b, totalCount);
            (!p.IsEmpty() && p.firstItemIndex <= itemIndex <= p.lastItemIndex)
              <==> p.firstItemIndex == PageStart(b, itemIndex)
  {
    var p := GetCurrentPage(b, totalCount);
    if !p.IsEmpty() {
      BoundedPageShape(b, totalCount);
      InAlignedWindow(p.firstItemIndex, b.take.value, itemIndex);
    }
  }

  /** Monotonicity of multiplication by a non-negative factor. */
  lemma MulLe(a: int, c: int, t: int)
    requires a <= c && t >= 0
    ensures a * t <= c * t
  {
    assert c * t - a * t == (c - a) * t;
  }

  /** An aligned start s admits item i in the window s .. s + t - 1 exactly when s is i's page start. */
  lemma InAlignedWindow(s: int, t: int, i: int)
    requires t >= 1 && s >= 0 && s % t == 0
    ensures s <= i < s + t <==> s == (i / t) * t
  {
    AlignedSkip(s, t);
    DivBounds(i, t);
    var k, j := s / t, i / t;
    if s <= i < s + t {
      if k < j {
        MulLe(k + 1, j, t);
      } else if k > j {
        MulLe(j + 1, k, t);
      }
    }
  }
}
