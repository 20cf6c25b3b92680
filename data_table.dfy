/**
 * The employee table component's state and event handlers
 * (src/components/DataTable.tsx). The seven `useState` fields are the
 * fields of `TableState`; the memoised derivations are functions of them,
 * recomputed on every read (React's re-render scheduling is not modelled).
 */
module DataTable {
  import opened Text
  import opened TableQuery

  /** The choices of the page-size dropdown. */
  predicate IsPageSizeOption(n: nat) {
    n == 5 || n == 10 || n == 20 || n == 50
  }

  function Flip(o: SortOrder): SortOrder {
    if o == Asc then Desc else Asc
  }

  /** `handleSort(clicked)`: the sort field and order after a header click.
      Clicking the current field flips the order and keeps the field; another
      field becomes the sort field, ascending. */
  function NextSort(field: SortField, order: SortOrder, clicked: SortField): (r: (SortField, SortOrder))
    ensures r.0 == clicked
    ensures clicked == field ==> r.1 != order
    ensures clicked != field ==> r.1 == Asc
  {
    if clicked == field then (field, Flip(order)) else (clicked, Asc)
  }

  /** Two clicks on the current field restore the order; two on another
      field leave it descending. */
  lemma NextSortBehaviour(field: SortField, order: SortOrder, clicked: SortField)
    ensures var (f1, o1) := NextSort(field, order, clicked);
            NextSort(f1, o1, clicked) == (clicked, if clicked == field then order else Desc)
  {
  }

  class TableState {
    const data: seq<Employee>
    var searchTerm: string
    var sortField: SortField
    var sortOrder: SortOrder
    var currentPage: nat
    var itemsPerPage: nat
    var selectedDepartment: string
    var selectedStatus: string

    /** The page number never drops below 1 and the page size is one of the
        dropdown's choices. The page number may exceed the page count. */
    ghost predicate Valid()
      reads this
    {
      currentPage >= 1 && IsPageSizeOption(itemsPerPage)
    }

    /** The initial state: no search or filters, sorted by name ascending,
        page 1 of 5 records. */
    constructor (data: seq<Employee>)
      ensures Valid() && this.data == data
      ensures searchTerm == "" && selectedDepartment == "" && selectedStatus == ""
      ensures sortField == NameField && sortOrder == Asc
      ensures currentPage == 1 && itemsPerPage == 5
    {
      this.data := data;
      searchTerm := "";
      sortField := NameField;
      sortOrder := Asc;
      currentPage := 1;
      itemsPerPage := 5;
      selectedDepartment := "";
      selectedStatus := "";
    }

    function CurrentCriteria(): Criteria
      reads this
    {
      Criteria(searchTerm, selectedDepartment, selectedStatus)
    }

    /** `filteredData`: the records that match the search and both filters,
        in their original order. */
    function FilteredData(): (r: seq<Employee>)
      reads this
      ensures IsSubsequence(r, data)
      ensures forall e :: e in r <==> e in data && Matches(e, CurrentCriteria())
    {
      Filter(data, CurrentCriteria())
    }

    /** `sortedData`: the filtered records, reordered by the sort column. */
    function SortedData(): (r: seq<Employee>)
      reads this
      ensures multiset(r) == multiset(FilteredData())
      ensures Sorted(r, sortField, sortOrder)
    {
      SortByCorrect(FilteredData(), sortField, sortOrder);
      SortBy(FilteredData(), sortField, sortOrder)
    }

    /** `totalPages`: no pages without records; otherwise just enough pages
        to hold every sorted record. */
    function PageCount(): (n: nat)
      reads this
      requires Valid()
      ensures n == 0 <==> FilteredData() == []
      ensures |SortedData()| <= n * itemsPerPage
      ensures n == 0 || (n - 1) * itemsPerPage < |SortedData()|
    {
      assert |SortedData()| == |FilteredData()| by {
        assert |multiset(SortedData())| == |multiset(FilteredData())|;
      }
      TotalPages(|SortedData()|, itemsPerPage)
    }

    /** `paginatedData`: at most a page's worth of records, empty exactly
        when the page number is past the page count. */
    function PaginatedData(): (r: seq<Employee>)
      reads this
      requires Valid()
      ensures |r| <= itemsPerPage
      ensures r == [] <==> currentPage > PageCount()
    {
      if currentPage > PageCount() then
        StalePageIsEmpty(SortedData(), currentPage, itemsPerPage);
        Paginate(SortedData(), currentPage, itemsPerPage)
      else
        FooterMatchesPage(SortedData(), currentPage, itemsPerPage);
        Paginate(SortedData(), currentPage, itemsPerPage)
    }

    /** The numbered page buttons: up to five existing pages, among them
        the current page when it exists. */
    function Window(): (w: seq<int>)
      reads this
      requires Valid()
      ensures |w| == Min(5, PageCount())
      ensures forall i :: 0 <= i < |w| ==> 1 <= w[i] <= PageCount()
      ensures currentPage <= PageCount() ==> currentPage in w
    {
      if currentPage <= PageCount() then
        PageWindowShowsCurrent(currentPage, PageCount());
        PageWindow(currentPage, PageCount())
      else
        PageWindow(currentPage, PageCount())
    }

    /** The footer (page size, footer text, page buttons) is rendered only
        when some record survives the filters. */
    predicate FooterShown()
      reads this
      ensures FooterShown() <==> FilteredData() != []
    {
      assert |SortedData()| == |FilteredData()| by {
        assert |multiset(SortedData())| == |multiset(FilteredData())|;
      }
      |SortedData()| > 0
    }

    /** The previous-page button is disabled exactly on the page whose
        footer starts at record 1. */
    predicate PrevDisabled()
      reads this
      ensures Valid() ==> (PrevDisabled() <==> ShowingFrom(currentPage, itemsPerPage) == 1)
    {
      FirstRecordOnFirstPage(currentPage, itemsPerPage);
      currentPage == 1
    }

    /** The next-page button is disabled on the page whose footer reaches
        the last record, and never past the last page. */
    predicate NextDisabled()
      reads this
      requires Valid()
      ensures NextDisabled() ==> ShowingTo(currentPage, itemsPerPage, |SortedData()|) == |SortedData()|
      ensures currentPage > PageCount() ==> !NextDisabled()
    {
      currentPage == PageCount()
    }

    /** Typing in the search box; the page number is kept. */
    method SetSearchTerm(term: string)
      requires Valid()
      modifies this
      ensures Valid()
      ensures searchTerm == term
      ensures selectedDepartment == old(selectedDepartment) && selectedStatus == old(selectedStatus)
      ensures sortField == old(sortField) && sortOrder == old(sortOrder)
      ensures currentPage == old(currentPage) && itemsPerPage == old(itemsPerPage)
    {
      searchTerm := term;
    }

    /** Choosing a department (or "" for all); the page number is kept. */
    method SelectDepartment(department: string)
      requires Valid()
      modifies this
      ensures Valid()
      ensures selectedDepartment == department
      ensures searchTerm == old(searchTerm) && selectedStatus == old(selectedStatus)
      ensures sortField == old(sortField) && sortOrder == old(sortOrder)
      ensures currentPage == old(currentPage) && itemsPerPage == old(itemsPerPage)
    {
      selectedDepartment := department;
    }

    /** Choosing a status (or "" for all); the page number is kept. */
    method SelectStatus(status: string)
      requires Valid()
      modifies this
      ensures Valid()
      ensures selectedStatus == status
      ensures searchTerm == old(searchTerm) && selectedDepartment == old(selectedDepartment)
      ensures sortField == old(sortField) && sortOrder == old(sortOrder)
      ensures currentPage == old(currentPage) && itemsPerPage == old(itemsPerPage)
    {
      selectedStatus := status;
    }

    /** `handleSort`: a click on a column header. */
    method HandleSort(clicked: SortField)
      requires Valid()
      modifies this
      ensures Valid()
      ensures (sortField, sortOrder) == NextSort(old(sortField), old(sortOrder), clicked)
      ensures searchTerm == old(searchTerm) && selectedDepartment == old(selectedDepartment)
      ensures selectedStatus == old(selectedStatus)
      ensures currentPage == old(currentPage) && itemsPerPage == old(itemsPerPage)
    {
      if clicked == sortField {
        sortOrder := if sortOrder == Asc then Desc else Asc;
      } else {
        sortField := clicked;
        sortOrder := Asc;
      }
    }

    /** `clearFilters`: no search, no department, no status, back to page 1;
        every record is shown again and the sort and page size stay. */
    method ClearFilters()
      requires Valid()
      modifies this
      ensures Valid()
      ensures searchTerm == "" && selectedDepartment == "" && selectedStatus == ""
      ensures currentPage == 1
      ensures sortField == old(sortField) && sortOrder == old(sortOrder)
      ensures itemsPerPage == old(itemsPerPage)
      ensures FilteredData() == data
    {
      searchTerm := "";
      selectedDepartment := "";
      selectedStatus := "";
      currentPage := 1;
      FilterNoCriteria(data);
    }

    /** The page-size dropdown's `onChange`: the new size, back to page 1. */
    method ChangePageSize(size: nat)
      requires Valid() && FooterShown() && IsPageSizeOption(size)
      modifies this
      ensures Valid()
      ensures itemsPerPage == size && currentPage == 1
      ensures searchTerm == old(searchTerm) && selectedDepartment == old(selectedDepartment)
      ensures selectedStatus == old(selectedStatus)
      ensures sortField == old(sortField) && sortOrder == old(sortOrder)
    {
      itemsPerPage := size;
      currentPage := 1;
    }

    /** A click on the previous-page button, which is disabled on page 1. */
    method PrevPage()
      requires Valid() && FooterShown()
      modifies this
      ensures Valid()
      ensures currentPage == if old(currentPage) == 1 then 1 else old(currentPage) - 1
      ensures searchTerm == old(searchTerm) && selectedDepartment == old(selectedDepartment)
      ensures selectedStatus == old(selectedStatus) && itemsPerPage == old(itemsPerPage)
      ensures sortField == old(sortField) && sortOrder == old(sortOrder)
    {
      if !PrevDisabled() {
        currentPage := currentPage - 1;
      }
    }

    /** A click on the next-page button, which is disabled only when the page
        number equals the page count: past the last page it stays enabled. */
    method NextPage()
      requires Valid() && FooterShown()
      modifies this
      ensures Valid()
      ensures currentPage == if old(currentPage) == old(PageCount()) then old(currentPage) else old(currentPage) + 1
      ensures searchTerm == old(searchTerm) && selectedDepartment == old(selectedDepartment)
      ensures selectedStatus == old(selectedStatus) && itemsPerPage == old(itemsPerPage)
      ensures sortField == old(sortField) && sortOrder == old(sortOrder)
    {
      if !NextDisabled() {
        currentPage := currentPage + 1;
      }
    }

    /** A click on one of the numbered page buttons: an existing page. */
    method GoToPage(page: int)
      requires Valid() && FooterShown() && page in Window()
      modifies this
      ensures Valid()
      ensures currentPage == page && 1 <= currentPage <= old(PageCount())
      ensures searchTerm == old(searchTerm) && selectedDepartment == old(selectedDepartment)
      ensures selectedStatus == old(selectedStatus) && itemsPerPage == old(itemsPerPage)
      ensures sortField == old(sortField) && sortOrder == old(sortOrder)
    {
      currentPage := page;
    }
  }
}
