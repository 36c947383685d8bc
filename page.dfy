/** The page descriptor: which page of a collection is being viewed and which items it spans. */
module Pages {

  /** `int.MaxValue`: the page size reported when no take was requested. */
  const IntMaxValue: int := 0x7fff_ffff

  /** The index reported at both ends of a page that spans no item. */
  const NoItem: int := -1

  function Min(a: int, b: int): int
  {
    if a < b then a else b
  }

  /** An immutable, structurally compared page descriptor. */
  datatype Page = Page(
    pageNumber: int,
    pageSize: int,
    isLastPage: bool,
    firstItemIndex: int,
    lastItemIndex: int)
  {
    /** A page spans no item when its indices carry the sentinel. */
    predicate IsEmpty()
    {
      firstItemIndex == NoItem
    }

    /** The number of items the page spans. */
    function ItemCount(): int
    {
      if IsEmpty() then 0 else lastItemIndex - firstItemIndex + 1
    }

    /**
     * The invariant of a page over a collection of `totalCount` items:
     * a positive page number and size, both indices the sentinel or neither,
     * a non-empty range inside the collection and no longer than a page,
     * and a range that reaches the end is the last page.
     */
    predicate ValidFor(totalCount: nat)
    {
      && pageNumber >= 1
      && pageSize >= 1
      && (firstItemIndex == NoItem <==> lastItemIndex == NoItem)
      && (!IsEmpty() ==>
            && 0 <= firstItemIndex <= lastItemIndex < totalCount
            && lastItemIndex - firstItemIndex + 1 <= pageSize
            && (lastItemIndex == totalCount - 1 ==> isLastPage))
    }
  }
}
