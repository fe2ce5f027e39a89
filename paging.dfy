/** Pagination of the table: the visible slice of the derived list and the
    blank rows that pad a short page. */
module Paging {

  function Min(a: int, b: int): int { if a < b then a else b }
  function Max(a: int, b: int): int { if a < b then b else a }

  /** How `Array.prototype.slice` reads one of its positions: a negative one
      counts back from the end, and the result is clamped to `[0, len]`. */
  function ClampIndex(i: int, len: nat): (k: nat)
    ensures k <= len
    ensures 0 <= i <= len ==> k == i
  {
    if i < 0 then Max(len + i, 0) else Min(i, len)
  }

  /** `s.slice(start, end)`. */
  function Slice<T>(s: seq<T>, start: int, end: int): (r: seq<T>)
    ensures |r| <= |s|
    ensures end - start >= 0 ==> |r| <= end - start
    ensures 0 <= start && start <= end ==>
      |r| == Max(0, Min(end, |s|) - start) && forall k :: 0 <= k < |r| ==> r[k] == s[start + k]
  {
    var from, to := ClampIndex(start, |s|), ClampIndex(end, |s|);
    if from < to then s[from..to] else []
  }

  /** The rows of page `page`: `slice(page * rowsPerPage, page * rowsPerPage
      + rowsPerPage)`. Never longer than a page; for a page at or past the
      start, the records from position `page * rowsPerPage` on, as many as
      remain up to a full page. */
  function PageSlice<T>(s: seq<T>, page: int, rowsPerPage: int): (r: seq<T>)
    ensures rowsPerPage >= 0 ==> |r| <= rowsPerPage
    ensures page >= 0 && rowsPerPage >= 0 ==>
      |r| == Min(rowsPerPage, Max(0, |s| - page * rowsPerPage))
      && forall k :: 0 <= k < |r| ==> r[k] == s[page * rowsPerPage + k]
  {
    Slice(s, page * rowsPerPage, page * rowsPerPage + rowsPerPage)
  }

  /** `emptyRows`: the blank rows that pad page `page`, computed from the
      number of records `total` (the unfiltered count). None on the first
      page (or a negative one); otherwise the part of the page past `total`. */
  function EmptyRows(page: int, rowsPerPage: int, total: int): (r: int)
    ensures r >= 0
    ensures page <= 0 ==> r == 0
    ensures page > 0 ==> r >= (1 + page) * rowsPerPage - total
    ensures page > 0 && r > 0 ==> r == (1 + page) * rowsPerPage - total
  {
    if page > 0 then Max(0, (1 + page) * rowsPerPage - total) else 0
  }

  /** Every page before the last is full. */
  lemma FullPagesAreFull<T>(s: seq<T>, page: int, rowsPerPage: int)
    requires page >= 0 && rowsPerPage >= 0
    requires (page + 1) * rowsPerPage <= |s|
    ensures |PageSlice(s, page, rowsPerPage)| == rowsPerPage
  {
    assert (page + 1) * rowsPerPage == page * rowsPerPage + rowsPerPage;
  }

  /** Without a search, the padding tops a page past the first up to a full
      page: the rows shown plus the blank rows make `rowsPerPage`, as long
      as the page starts within the list. */
  lemma PaddingFillsPage<T>(s: seq<T>, page: int, rowsPerPage: int)
    requires page > 0 && rowsPerPage >= 0
    requires page * rowsPerPage <= |s|
    ensures |PageSlice(s, page, rowsPerPage)| + EmptyRows(page, rowsPerPage, |s|) == rowsPerPage
  {
    assert (1 + page) * rowsPerPage == page * rowsPerPage + rowsPerPage;
  }

  /** The padding is computed from the unfiltered count: when the search
      leaves no record for a page past the first that the unfiltered list
      would fill, that page shows neither a record nor a blank row. */
  lemma PaddingIgnoresFilter<T>(filtered: seq<T>, total: int, page: int, rowsPerPage: int)
    requires page > 0 && rowsPerPage > 0
    requires |filtered| <= page * rowsPerPage
    requires (1 + page) * rowsPerPage <= total
    ensures PageSlice(filtered, page, rowsPerPage) == []
    ensures EmptyRows(page, rowsPerPage, total) == 0
  {
  }

  /** The six-record example: the first page shows five records and no
      padding, the second the sixth record and four blank rows. */
  lemma SixRecordsFivePerPage<T>(s: seq<T>)
    requires |s| == 6
    ensures PageSlice(s, 0, 5) == s[..5] && EmptyRows(0, 5, |s|) == 0
    ensures PageSlice(s, 1, 5) == s[5..] && EmptyRows(1, 5, |s|) == 4
  {
  }
}
