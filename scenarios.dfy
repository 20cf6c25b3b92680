/**
 * A walk through the employee table: because the filters leave the page
 * number alone, a page past the last one is reachable, and it shows no
 * rows. The twelve demonstration records meet the walk's requirements.
 */
module TableScenarios {
  import opened TableQuery
  import opened MockEmployees
  import opened DataTable

  /** Open the table on twelve records, go to page 3 of 3, then choose the
      status "Inactive": when one record survives there is one page, page 3
      stays selected and the table body is empty while the footer is still
      rendered. */
  method StalePageAfterFilter(data: seq<Employee>) returns (t: TableState)
    requires |data| == 12 && |Filter(data, Criteria("", "", "Inactive"))| == 1
    ensures t.Valid() && t.FooterShown()
    ensures t.currentPage == 3 && t.PageCount() == 1
    ensures t.PaginatedData() == []
  {
    t := new TableState(data);
    ghost var all := t.SortedData();
    assert |all| == 12 by {
      FilterNoCriteria(data);
      assert |multiset(all)| == |multiset(data)|;
    }
    assert t.PageCount() == 3 by {
      assert TotalPages(12, 5) == 3;
    }
    t.NextPage();
    assert t.SortedData() == all && t.currentPage == 2;
    t.NextPage();
    assert t.currentPage == 3;
    t.SelectStatus("Inactive");
    ghost var some := t.SortedData();
    assert |some| == 1 by {
      assert |multiset(some)| == |multiset(t.FilteredData())|;
    }
    StalePageIsEmpty(t.SortedData(), 3, 5);
  }

  /** The demonstration records meet the walk's requirements. */
  lemma MockDataAllowsStalePage()
    ensures |MockData| == 12 && |Filter(MockData, Criteria("", "", "Inactive"))| == 1
  {
    MockInactive();
  }
}
