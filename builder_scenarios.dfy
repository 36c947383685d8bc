/** The builder's documented scenarios, one lemma per case of its test suite. */
module BuilderScenarios {
  import opened Wrappers
  import opened Pages
  import opened Builders

  // Constructor

  lemma RejectsSkipLessThanZero()
    ensures New(-1, None) == Failure(ArgumentOutOfRange("skip", -1, AtLeast(0)))
  {
  }

  lemma RejectsTakeLessThanOne()
    ensures New(0, Some(0)) == Failure(ArgumentOutOfRange("take", 0, AtLeast(1)))
  {
  }

  lemma RejectsSkipNotMultipleOfTake()
    ensures New(2, Some(5)) == Failure(SkipNotMultipleOfTake(2, 5))
  {
  }

  // GetCurrentPage

  lemma EmptySourceWithUnboundedTake()
    ensures New(0, None).Success?
    ensures GetCurrentPage(New(0, None).value, 0) == Page(1, IntMaxValue, true, NoItem, NoItem)
  {
  }

  lemma EmptySourceWithBoundedTake()
    ensures New(0, Some(5)).Success?
    ensures GetCurrentPage(New(0, Some(5)).value, 0) == Page(1, 5, true, NoItem, NoItem)
  {
  }

  lemma UnboundedTakeSpansWholeSource()
    ensures New(0, None).Success?
    ensures GetCurrentPage(New(0, None).value, 50) == Page(1, IntMaxValue, true, 0, 49)
  {
  }

  lemma UnboundedTakeAfterSkipIsPageTwo()
    ensures New(10, None).Success?
    ensures GetCurrentPage(New(10, None).value, 50) == Page(2, IntMaxValue, true, 10, 49)
  {
  }

  lemma ZeroSkipIsPageOne()
    ensures New(0, Some(10)).Success?
    ensures GetCurrentPage(New(0, Some(10)).value, 50) == Page(1, 10, false, 0, 9)
  {
  }

  lemma LaterSkipsGiveLaterPageNumbers()
    ensures New(10, Some(10)).Success? && New(20, Some(10)).Success?
    ensures GetCurrentPage(New(10, Some(10)).value, 50).pageNumber == 2
    ensures GetCurrentPage(New(20, Some(10)).value, 50).pageNumber == 3
  {
  }

  lemma SkipPastTotalStillSkips()
    ensures New(60, Some(10)).Success?
    ensures GetCurrentPage(New(60, Some(10)).value, 50) == Page(7, 10, false, NoItem, NoItem)
  {
  }

  lemma SkipPastTotalRestrictsToLastPage()
    ensures New(60, Some(10), true).Success?
    ensures GetCurrentPage(New(60, Some(10), true).value, 50) == Page(5, 10, true, 40, 49)
  {
  }

  lemma SkipPastTotalRestrictsToLastPartialPage()
    ensures New(60, Some(10), true).Success?
    ensures GetCurrentPage(New(60, Some(10), true).value, 53) == Page(6, 10, true, 50, 52)
  {
  }

  // GetPageContainingItem

  lemma RejectsTotalLessThanOne()
    ensures New(0, None).Success?
    ensures GetPageContainingItem(New(0, None).value, 0, 0)
         == Failure(ArgumentOutOfRange("totalNumberOfItems", 0, AtLeast(1)))
    ensures GetPageContainingItem(New(0, None).value, 0, -1)
         == Failure(ArgumentOutOfRange("totalNumberOfItems", -1, AtLeast(1)))
  {
  }

  lemma RejectsItemIndexNotBelowTotal()
    ensures New(0, None).Success?
    ensures GetPageContainingItem(New(0, None).value, 26, 26)
         == Failure(ArgumentOutOfRange("itemIndex", 26, LessThan(26)))
    ensures GetPageContainingItem(New(0, None).value, 27, 26)
         == Failure(ArgumentOutOfRange("itemIndex", 27, LessThan(26)))
  {
  }

  lemma ItemPageWithUnboundedTakeIgnoresSkip()
    ensures New(4, None).Success?
    ensures GetPageContainingItem(New(4, None).value, 0, 50) == Success(Page(1, IntMaxValue, true, 0, 49))
  {
  }

  lemma ItemPageWithUnboundedTakeAfterFirstItem()
    ensures New(0, None).Success?
    ensures GetPageContainingItem(New(0, None).value, 10, 50) == Success(Page(2, IntMaxValue, true, 10, 49))
  {
  }

  lemma FirstItemIsOnPageOne()
    ensures New(10, Some(10)).Success?
    ensures GetPageContainingItem(New(10, Some(10)).value, 0, 50) == Success(Page(1, 10, false, 0, 9))
  {
  }

  lemma LaterItemsGiveLaterPageNumbers()
    ensures New(0, Some(10)).Success?
    ensures var b := New(0, Some(10)).value;
            && GetPageContainingItem(b, 10, 50).Success? && GetPageContainingItem(b, 10, 50).value.pageNumber == 2
            && GetPageContainingItem(b, 11, 50).Success? && GetPageContainingItem(b, 11, 50).value.pageNumber == 2
            && GetPageContainingItem(b, 15, 50).Success? && GetPageContainingItem(b, 15, 50).value.pageNumber == 2
            && GetPageContainingItem(b, 19, 50).Success? && GetPageContainingItem(b, 19, 50).value.pageNumber == 2
            && GetPageContainingItem(b, 20, 50).Success? && GetPageContainingItem(b, 20, 50).value.pageNumber == 3
  {
  }
}
