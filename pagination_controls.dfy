/** The pagination bar under the result grid: the "Showing start to end of
    total" range and the Previous / Next buttons. */
module PaginationControls {
  import opened Sequences
  import opened Types
  import Route

  /** The number of the first row on the page: `(page - 1) * limit + 1`. */
  function Start(p: PaginationInfo): int
  {
    (p.page - 1) * p.limit + 1
  }

  /** The number of the last row on the page: `min(page * limit, total)`. */
  function End(p: PaginationInfo): (r: int)
    ensures r <= p.total
  {
    Min(p.page * p.limit, p.total)
  }

  /** A button: the page it asks for and whether it is disabled. */
  datatype PageButton = PageButton(target: int, disabled: bool)

  /** "Previous" asks for `currentPage - 1` and is disabled without a previous page. */
  function PreviousButton(p: PaginationInfo, currentPage: int): PageButton
  {
    PageButton(currentPage - 1, !p.hasPrev)
  }

  /** "Next" asks for `currentPage + 1` and is disabled without a next page. */
  function NextButton(p: PaginationInfo, currentPage: int): PageButton
  {
    PageButton(currentPage + 1, !p.hasNext)
  }

  /** On a page that holds rows, the range is non-empty, within the total and
      at most one page long. */
  lemma RangeWithinPage(p: PaginationInfo)
    requires 1 <= p.page && 1 <= p.limit && (p.page - 1) * p.limit < p.total
    ensures 1 <= Start(p) <= End(p) <= p.total
    ensures End(p) - Start(p) + 1 <= p.limit
  {
    assert p.page * p.limit == (p.page - 1) * p.limit + p.limit;
    Route.MulMonotone(0, p.page - 1, p.limit);
  }

  /** With no rows on the first page the bar shows "Showing 1 to 0 of 0". */
  lemma EmptyTotalRange(p: PaginationInfo)
    requires p.page == 1 && p.limit >= 0 && p.total == 0
    ensures Start(p) == 1 && End(p) == 0
  {
  }

  /** The range of an envelope whose page holds `n > 0` of `total` rows from `offset` on. */
  lemma WindowRange(page: int, limit: int, total: nat, offset: nat, n: int, m: nat)
    requires 1 <= limit
    requires offset == (page - 1) * limit
    requires n == Min(limit, Max(0, m - offset))
    requires n > 0
    requires total == if offset < m then m else 0
    ensures Start(Route.Envelope(page, limit, total)) == offset + 1
    ensures End(Route.Envelope(page, limit, total)) == offset + n
  {
    assert page * limit == offset + limit;
  }

  /** For a query of page `page` whose page holds rows, the range runs from
      `offset + 1` to `offset + |data|`. */
  lemma QueryRange(q: Route.Query, page: int, rows: seq<Advocate>)
    requires 1 <= q.limit && q.offset == (page - 1) * q.limit
    requires Route.RunQuery(q, rows).data != []
    ensures var result := Route.RunQuery(q, rows);
            var e := Route.Envelope(page, q.limit, result.totalCount);
            Start(e) == q.offset + 1 && End(e) == q.offset + |result.data|
  {
    var result := Route.RunQuery(q, rows);
    WindowRange(page, q.limit, result.totalCount, q.offset, |result.data|, |Route.Matching(rows, q.term)|);
  }

  /** For a response of the endpoint that holds rows, the bar numbers exactly
      the rows returned: from `offset + 1` to `offset + |data|`. */
  lemma RangeMatchesResponse(q: Route.RawQuery, rows: seq<Advocate>, w: Advocate -> bool)
    requires Route.Get(q, Route.Connected(rows), w).Ok?
    requires Route.Get(q, Route.Connected(rows), w).data != []
    ensures var r := Route.Get(q, Route.Connected(rows), w);
            var p := Route.ValidateQuery(q).value;
            && Start(r.pagination) == Route.Offset(p.page, p.limit) + 1
            && End(r.pagination) == Route.Offset(p.page, p.limit) + |r.data|
  {
    Route.GetOk(q, rows, w);
    ParamsRange(Route.ValidateQuery(q).value, rows);
  }

  /** The range for validated parameters whose page holds rows. */
  lemma ParamsRange(p: Route.Params, rows: seq<Advocate>)
    requires 1 <= p.page && 1 <= p.limit
    requires Route.RunQuery(Route.QueryOf(p), rows).data != []
    ensures var result := Route.RunQuery(Route.QueryOf(p), rows);
            var e := Route.Envelope(p.page, p.limit, result.totalCount);
            Start(e) == Route.Offset(p.page, p.limit) + 1 && End(e) == Route.Offset(p.page, p.limit) + |result.data|
  {
    Route.QueryOfPage(p);
    QueryRange(Route.QueryOf(p), p.page, rows);
  }

  /** For an empty page after the first, the endpoint's zero total makes the
      bar read "Showing start to 0" with `start` above 0. */
  lemma PastEndRange(q: Route.RawQuery, rows: seq<Advocate>, w: Advocate -> bool)
    requires Route.Get(q, Route.Connected(rows), w).Ok?
    requires Route.Get(q, Route.Connected(rows), w).data == []
    ensures var r := Route.Get(q, Route.Connected(rows), w);
            End(r.pagination) == 0 && Start(r.pagination) >= 1
            && (r.pagination.page > 1 ==> Start(r.pagination) > r.pagination.limit)
  {
    var r := Route.Get(q, Route.Connected(rows), w);
    Route.GetOk(q, rows, w);
    var p := Route.ValidateQuery(q).value;
    Route.MulMonotone(0, p.page - 1, p.limit);
    if p.page > 1 {
      Route.MulMonotone(1, p.page - 1, p.limit);
    }
  }

  /** Fed the envelope of a response for the page on screen, an enabled
      "Previous" asks for a page from 1 to the one before, and an enabled
      "Next" for a page no further than `totalPages`. */
  lemma ButtonsStayInRange(q: Route.RawQuery, rows: seq<Advocate>, w: Advocate -> bool)
    requires Route.Get(q, Route.Connected(rows), w).Ok?
    ensures var e := Route.Get(q, Route.Connected(rows), w).pagination;
            var prev := PreviousButton(e, e.page);
            var next := NextButton(e, e.page);
            && (!prev.disabled <==> e.page > 1)
            && (!prev.disabled ==> 1 <= prev.target < e.page)
            && (!next.disabled <==> e.page < e.totalPages)
            && (!next.disabled ==> next.target <= e.totalPages)
  {
    Route.GetOk(q, rows, w);
  }
}
