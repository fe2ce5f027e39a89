/** The `UserManagement` page: its view state, the four handlers that change
    it, and the list the table derives from it on each render. The record
    list comes from the store and is passed in. */
module AdminManagement {
  import opened Users
  import opened Comparators
  import opened Search
  import opened SortFilter
  import opened Paging

  class UserManagement {
    var page: int
    var order: string
    var orderBy: string
    var filterName: string
    var rowsPerPage: int

    /** The sort direction is one of the two the page's `'asc' | 'desc'`
        state type allows. */
    ghost predicate Valid()
      reads this
    {
      order == "asc" || order == "desc"
    }

    /** The state a fresh page starts with. */
    constructor ()
      ensures Valid()
      ensures page == 0 && order == "asc" && orderBy == "username"
      ensures filterName == "" && rowsPerPage == 5
    {
      page, order, orderBy := 0, "asc", "username";
      filterName, rowsPerPage := "", 5;
    }

    /** A click on a column header: a second click on the ascending column
        makes it descending; any other click sorts that column ascending. */
    method HandleRequestSort(property: string)
      requires Valid()
      modifies this
      ensures Valid()
      ensures order == (if old(orderBy) == property && old(order) == "asc" then "desc" else "asc")
      ensures orderBy == property
      ensures page == old(page) && filterName == old(filterName) && rowsPerPage == old(rowsPerPage)
    {
      var isAsc := orderBy == property && order == "asc";
      order := if isAsc then "desc" else "asc";
      orderBy := property;
    }

    /** The pager moves to `newPage`, taken as it comes. */
    method HandleChangePage(newPage: int)
      requires Valid()
      modifies this
      ensures Valid()
      ensures page == newPage
      ensures order == old(order) && orderBy == old(orderBy)
      ensures filterName == old(filterName) && rowsPerPage == old(rowsPerPage)
    {
      page := newPage;
    }

    /** A new page size, already parsed; back to the first page. */
    method HandleChangeRowsPerPage(value: int)
      requires Valid()
      modifies this
      ensures Valid()
      ensures rowsPerPage == value && page == 0
      ensures order == old(order) && orderBy == old(orderBy) && filterName == old(filterName)
    {
      rowsPerPage := value;
      page := 0;
    }

    /** New search text; the page stays where it was. */
    method HandleFilterByName(value: string)
      requires Valid()
      modifies this
      ensures Valid()
      ensures filterName == value
      ensures page == old(page) && order == old(order) && orderBy == old(orderBy)
      ensures rowsPerPage == old(rowsPerPage)
    {
      filterName := value;
    }

    /** One render: the derived list, the rows on the current page, the
        blank rows that pad it and whether the not-found notice shows. */
    method Render(users: seq<User>)
      returns (filteredUsers: seq<User>, ghost idx: seq<int>, visible: seq<User>,
               emptyRows: int, isUserNotFound: bool)
      requires Valid()
      ensures filterName != "" ==> filteredUsers == Matching(users, filterName)
      ensures filterName == "" ==> StableSortOf(filteredUsers, idx, users, GetComparator(order, orderBy))
      ensures filterName == "" ==> multiset(filteredUsers) == multiset(users)
      ensures visible == PageSlice(filteredUsers, page, rowsPerPage)
      ensures rowsPerPage >= 0 ==> |visible| <= rowsPerPage
      ensures emptyRows == EmptyRows(page, rowsPerPage, |users|)
      ensures isUserNotFound <==> filteredUsers == []
      ensures isUserNotFound <==> if filterName == "" then users == []
                                  else forall u :: u in users ==> !UserMatches(u, filterName)
    {
      emptyRows := EmptyRows(page, rowsPerPage, |users|);
      GetComparatorConsistent(order, orderBy);
      filteredUsers, idx := ApplySortFilter(users, GetComparator(order, orderBy), filterName);
      isUserNotFound := |filteredUsers| == 0;
      visible := PageSlice(filteredUsers, page, rowsPerPage);
      if filterName != "" && !isUserNotFound {
        assert filteredUsers[0] in filteredUsers;
      }
    }
  }

  /** Two clicks on the column the page is sorted by, ascending, flip it to
      descending and back; a click on another column sorts that column
      ascending. Changing the page size returns to the first page, while new
      search text keeps the page. */
  method HandlerScenario() returns (orders: seq<string>, pages: seq<int>)
    ensures orders == ["desc", "asc", "asc"]
    ensures pages == [3, 0, 2, 2]
  {
    var view := new UserManagement();
    view.HandleRequestSort("username");
    var first := view.order;
    view.HandleRequestSort("username");
    var second := view.order;
    view.HandleRequestSort("email");
    orders := [first, second, view.order];
    view.HandleChangePage(3);
    var before := view.page;
    view.HandleChangeRowsPerPage(10);
    var reset := view.page;
    view.HandleChangePage(2);
    var moved := view.page;
    view.HandleFilterByName("bob");
    pages := [before, reset, moved, view.page];
  }
}
