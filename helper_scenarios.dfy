/**
 * The `Page(skip, take)` scenarios, one lemma per case; each states the same
 * result for the enumerable and the queryable path.
 */
module HelperScenarios {
  import opened Wrappers
  import opened Pages
  import opened Builders
  import opened PaginationHelpers

  const OneToNine: seq<int> := [1, 2, 3, 4, 5, 6, 7, 8, 9]

  lemma EmptySourceGivesEmptyList()
    ensures PageSeq<int>([], 2, None) == Success(Empty(0, Page(2, IntMaxValue, true, NoItem, NoItem)))
    ensures PageQuery<int>([], 2, None) == Success(Empty(0, Page(2, IntMaxValue, true, NoItem, NoItem)))
  {
  }

  lemma SkipsAppropriateNumber()
    ensures PageSeq(OneToNine, 2, None) == Success(Create(9, Page(2, IntMaxValue, true, 2, 8), [3, 4, 5, 6, 7, 8, 9]))
    ensures PageQuery(OneToNine, 2, None) == Success(Create(9, Page(2, IntMaxValue, true, 2, 8), [3, 4, 5, 6, 7, 8, 9]))
  {
    assert GetCurrentPage(ItemIndexPageBuilder(2, None, false), 9) == Page(2, IntMaxValue, true, 2, 8);
    assert OneToNine[2..9] == [3, 4, 5, 6, 7, 8, 9];
    QueryableMatchesEnumerable(OneToNine, 2, None);
  }

  lemma TakesAppropriateNumber()
    ensures PageSeq(OneToNine, 0, Some(2)) == Success(Create(9, Page(1, 2, false, 0, 1), [1, 2]))
    ensures PageQuery(OneToNine, 0, Some(2)) == Success(Create(9, Page(1, 2, false, 0, 1), [1, 2]))
  {
    assert GetCurrentPage(ItemIndexPageBuilder(0, Some(2), false), 9) == Page(1, 2, false, 0, 1);
    assert OneToNine[0..2] == [1, 2];
    QueryableMatchesEnumerable(OneToNine, 0, Some(2));
  }

  lemma SkipsAndTakesAppropriateNumber()
    ensures PageSeq(OneToNine, 4, Some(2)) == Success(Create(9, Page(3, 2, false, 4, 5), [5, 6]))
    ensures PageQuery(OneToNine, 4, Some(2)) == Success(Create(9, Page(3, 2, false, 4, 5), [5, 6]))
  {
    assert GetCurrentPage(ItemIndexPageBuilder(4, Some(2), false), 9) == Page(3, 2, false, 4, 5);
    assert OneToNine[4..6] == [5, 6];
    QueryableMatchesEnumerable(OneToNine, 4, Some(2));
  }

  lemma AllowsPagePastLastItem()
    ensures PageSeq(OneToNine, 50, Some(2)) == Success(Empty(9, Page(26, 2, false, NoItem, NoItem)))
    ensures PageQuery(OneToNine, 50, Some(2)) == Success(Empty(9, Page(26, 2, false, NoItem, NoItem)))
  {
  }
}
