/** The `GET /api/advocates` endpoint: validation of `search`, `page` and
    `limit`, the trimmed search term, the OR-of-substrings match, the
    newest-first page with its window count, and the pagination envelope.
    The table is a sequence of rows; the database connection is a `Store`. */
module Route {
  import opened Wrappers
  import opened Text
  import opened Sequences
  import opened Types

  const MaxSearchLength := 100
  const MaxPage := 1000
  const MaxLimit := 100
  const DefaultPage := 1
  const DefaultLimit := 20

  const InvalidParamsMessage := "Invalid query parameters"
  const NoDatabaseMessage := "Database connection not established"
  const FetchFailedMessage := "Failed to fetch advocates"

  /** A numeric query parameter once `parseInt` has read it: missing or empty
      (the default is substituted), an integer, or `NaN`. */
  datatype NumParam = Absent | Parsed(value: int) | NotANumber

  /** The query string: `search` is missing or a string. */
  datatype RawQuery = RawQuery(search: Option<string>, page: NumParam, limit: NumParam)

  /** The fields a validation issue can name. */
  datatype Field = SearchField | PageField | LimitField

  /** Validated parameters. */
  datatype Params = Params(search: string, page: int, limit: int)

  /** The database as the handler sees it: no connection string, a query
      that throws, or the rows of the table. */
  datatype Store = Unconfigured | Unreachable | Connected(rows: seq<Advocate>)

  datatype Response =
    | Ok(data: seq<Advocate>, pagination: PaginationInfo)
    | BadRequest(error: string, details: seq<Field>)
    | ServerError(error: string)

  /** The HTTP status of a response. */
  function Status(r: Response): (code: int)
    ensures code == 200 <==> r.Ok?
    ensures code == 400 <==> r.BadRequest?
    ensures code == 500 <==> r.ServerError?
  {
    match r
    case Ok(_, _) => 200
    case BadRequest(_, _) => 400
    case ServerError(_) => 500
  }

  /** The search text of the request: the empty string when it is missing. */
  function SearchOf(q: RawQuery): string
  {
    match q.search
    case None => ""
    case Some(s) => s
  }

  /** The number a numeric parameter stands for: the default when it is missing,
      the parsed integer when there is one, and `None` when it is not a number. */
  function NumberOf(p: NumParam, default: int): Option<int>
  {
    match p
    case Absent => Some(default)
    case Parsed(v) => Some(v)
    case NotANumber => None
  }

  /** A number is present, positive and at most `max`. */
  predicate PositiveAtMost(v: Option<int>, max: int)
  {
    v.Some? && 0 < v.value <= max
  }

  /** The issues `queryParamsSchema.safeParse` reports, in the schema's field order. */
  function Issues(q: RawQuery): (r: seq<Field>)
    ensures SearchField in r <==> |SearchOf(q)| > MaxSearchLength
    ensures PageField in r <==> !PositiveAtMost(NumberOf(q.page, DefaultPage), MaxPage)
    ensures LimitField in r <==> !PositiveAtMost(NumberOf(q.limit, DefaultLimit), MaxLimit)
  {
    (if |SearchOf(q)| > MaxSearchLength then [SearchField] else []) +
    (if PositiveAtMost(NumberOf(q.page, DefaultPage), MaxPage) then [] else [PageField]) +
    (if PositiveAtMost(NumberOf(q.limit, DefaultLimit), MaxLimit) then [] else [LimitField])
  }

  /** Validation of the request: the parameters with their defaults filled in,
      or every field that breaks its bound. */
  function ValidateQuery(q: RawQuery): (r: Result<Params, seq<Field>>)
    ensures r.Success? <==>
      |SearchOf(q)| <= MaxSearchLength &&
      PositiveAtMost(NumberOf(q.page, DefaultPage), MaxPage) &&
      PositiveAtMost(NumberOf(q.limit, DefaultLimit), MaxLimit)
    ensures r.Success? ==>
      |r.value.search| <= MaxSearchLength && 1 <= r.value.page <= MaxPage && 1 <= r.value.limit <= MaxLimit
    ensures r.Failure? ==> r.error != [] && r.error == Issues(q)
  {
    var issues := Issues(q);
    if issues == [] then
      Success(Params(SearchOf(q), NumberOf(q.page, DefaultPage).value, NumberOf(q.limit, DefaultLimit).value))
    else
      assert issues[0] in issues;
      Failure(issues)
  }

  /** A missing parameter takes its default; a given one is taken as it is. */
  lemma ValidatedValues(q: RawQuery)
    requires ValidateQuery(q).Success?
    ensures ValidateQuery(q).value.search == (if q.search.Some? then q.search.value else "")
    ensures ValidateQuery(q).value.page == (if q.page.Parsed? then q.page.value else DefaultPage)
    ensures ValidateQuery(q).value.limit == (if q.limit.Parsed? then q.limit.value else DefaultLimit)
  {
  }

  /** The number of rows skipped before a page: the full earlier pages. */
  function Offset(page: int, limit: int): nat
    requires 1 <= page && 1 <= limit
  {
    (page - 1) * limit
  }

  /** `term` occurs in `s` once both are case-folded (ASCII letters only). */
  predicate ILike(s: string, term: string)
  {
    Contains(Lower(s), Lower(term))
  }

  /** The WHERE clause: no filter for an empty term, else an OR over the six fields. */
  predicate Matches(a: Advocate, term: string)
  {
    term == "" ||
    ILike(a.firstName, term) ||
    ILike(a.lastName, term) ||
    ILike(a.city, term) ||
    ILike(a.degree, term) ||
    (exists sp :: sp in a.specialties && ILike(sp, term)) ||
    ILike(Decimal(a.yearsOfExperience), term)
  }

  function MatchPredicate(term: string): Advocate -> bool
  {
    a => Matches(a, term)
  }

  /** The rows the WHERE clause keeps, in table order. */
  function Matching(rows: seq<Advocate>, term: string): seq<Advocate>
  {
    Filter(rows, MatchPredicate(term))
  }

  function CreatedAt(a: Advocate): int
  {
    a.createdAt
  }

  /** The rows ordered by creation time, newest first; rows with equal timestamps keep table order. */
  function NewestFirst(rows: seq<Advocate>): seq<Advocate>
  {
    SortDesc(rows, CreatedAt)
  }

  /** At most `limit` elements of `s`, starting after the first `offset`. */
  function PageSlice<T>(s: seq<T>, offset: nat, limit: nat): (r: seq<T>)
    ensures |r| == Min(limit, Max(0, |s| - offset))
    ensures r != [] ==> offset + |r| <= |s|
    ensures forall i :: 0 <= i < |r| ==> r[i] == s[offset + i]
  {
    if offset >= |s| then [] else s[offset..Min(offset + limit, |s|)]
  }

  /** The quotient of `n` by `d` rounded up, for non-negative `n` and positive `d`. */
  function CeilDiv(n: nat, d: int): (q: nat)
    requires d > 0
    ensures (q - 1) * d < n <= q * d
  {
    var q := (n + d - 1) / d;
    var m := (n + d - 1) % d;
    assert n + d - 1 == q * d + m;
    assert q * d - d == (q - 1) * d;
    q
  }

  /** The pagination block of a successful response. */
  function Envelope(page: int, limit: int, total: nat): (r: PaginationInfo)
    requires limit > 0
    ensures r.page == page && r.limit == limit && r.total == total && r.totalPages >= 0
    ensures (r.totalPages - 1) * limit < total <= r.totalPages * limit
    ensures r.hasNext <==> page < r.totalPages
    ensures r.hasPrev <==> page > 1
  {
    var totalPages := CeilDiv(total, limit);
    PaginationInfo(page, limit, total, totalPages, page < totalPages, page > 1)
  }

  /** What the query needs once the request is validated: the trimmed search
      term, the number of rows to skip and the page size. */
  datatype Query = Query(term: string, offset: nat, limit: nat)

  /** The query of a validated request: its trimmed search term, the rows of the
      earlier pages to skip, and the page size. */
  function QueryOf(p: Params): Query
    requires 1 <= p.page && 1 <= p.limit
  {
    Query(Trim(p.search), Offset(p.page, p.limit), p.limit)
  }

  /** The query skips the `(page - 1) * limit` rows of the earlier pages. */
  lemma QueryOfPage(p: Params)
    requires 1 <= p.page && 1 <= p.limit
    ensures QueryOf(p).offset == Offset(p.page, p.limit) == (p.page - 1) * p.limit
    ensures QueryOf(p).limit == p.limit
  {
  }

  /** What the single SELECT returns: the page of rows and the `totalCount`
      read from its first row (0 when the page is empty). */
  datatype QueryResult = QueryResult(data: seq<Advocate>, totalCount: nat)

  /** The SELECT: filter, order newest first, `LIMIT`/`OFFSET`, and the window
      count `count(*) over()`, which every returned row carries. The page is
      the block `[offset, offset + limit)` of the ordered matches. */
  function RunQuery(q: Query, rows: seq<Advocate>): (r: QueryResult)
    requires q.limit >= 1
    ensures var matching := Matching(rows, q.term);
            && |r.data| == Min(q.limit, Max(0, |matching| - q.offset))
            && (r.data != [] ==> q.offset + |r.data| <= |matching|)
            && (forall i :: 0 <= i < |r.data| ==> r.data[i] == NewestFirst(matching)[q.offset + i])
            && r.totalCount == (if q.offset < |matching| then |matching| else 0)
  {
    var sorted := NewestFirst(Matching(rows, q.term));
    var data := PageSlice(sorted, q.offset, q.limit);
    QueryResult(data, if data == [] then 0 else |sorted|)
  }

  /** `GET /api/advocates`. `wellFormed` is `advocateResponseSchema`, which
      every returned row must pass. */
  function Get(q: RawQuery, store: Store, wellFormed: Advocate -> bool): (r: Response)
    ensures r.BadRequest? <==> ValidateQuery(q).Failure?
    ensures r.Ok? ==> store.Connected? && forall i :: 0 <= i < |r.data| ==> wellFormed(r.data[i])
    ensures ValidateQuery(q).Success? && store.Unconfigured? ==> r == ServerError(NoDatabaseMessage)
  {
    match ValidateQuery(q)
    case Failure(issues) => BadRequest(InvalidParamsMessage, issues)
    case Success(p) =>
      match store
      case Unconfigured => ServerError(NoDatabaseMessage)
      case Unreachable => ServerError(FetchFailedMessage)
      case Connected(rows) =>
        var result := RunQuery(QueryOf(p), rows);
        Respond(p, result.data, result.totalCount, wellFormed)
  }

  /** The success body, unless some row fails the shape check: then the whole
      request fails and no row is returned. */
  function Respond(p: Params, data: seq<Advocate>, total: nat, wellFormed: Advocate -> bool): (r: Response)
    requires p.limit >= 1
    ensures r.Ok? <==> forall i :: 0 <= i < |data| ==> wellFormed(data[i])
    ensures r.Ok? ==> r.data == data && r.pagination == Envelope(p.page, p.limit, total)
    ensures !r.Ok? ==> r == ServerError(FetchFailedMessage)
  {
    if forall i :: 0 <= i < |data| ==> wellFormed(data[i]) then
      Ok(data, Envelope(p.page, p.limit, total))
    else
      ServerError(FetchFailedMessage)
  }

  /** The response with `total` set to the number of matching rows on every
      page, as the pagination contract asks; otherwise the same as `Get`. */
  function GetExactTotal(q: RawQuery, store: Store, wellFormed: Advocate -> bool): (r: Response)
    ensures r.Ok? <==> Get(q, store, wellFormed).Ok?
    ensures !r.Ok? ==> r == Get(q, store, wellFormed)
  {
    match ValidateQuery(q)
    case Failure(issues) => BadRequest(InvalidParamsMessage, issues)
    case Success(p) =>
      match store
      case Unconfigured => ServerError(NoDatabaseMessage)
      case Unreachable => ServerError(FetchFailedMessage)
      case Connected(rows) =>
        var query := QueryOf(p);
        var result := RunQuery(query, rows);
        Respond(p, result.data, |Matching(rows, query.term)|, wellFormed)
  }

  // Lemmas about the endpoint

  /** A rejected request answers 400 with the issues and never consults the store. */
  lemma InvalidQueryRunsNoQuery(q: RawQuery, s1: Store, s2: Store, w: Advocate -> bool)
    requires ValidateQuery(q).Failure?
    ensures Get(q, s1, w) == BadRequest(InvalidParamsMessage, Issues(q))
    ensures Get(q, s1, w) == Get(q, s2, w)
  {
  }

  /** With every parameter missing the request is valid, with page 1, limit 20 and no search. */
  lemma DefaultsAreValid()
    ensures ValidateQuery(RawQuery(None, Absent, Absent)) == Success(Params("", DefaultPage, DefaultLimit))
  {
  }

  /** A row is kept by the WHERE clause exactly when it is in the table and matches;
      the kept rows keep their table order. */
  lemma MatchingMembers(rows: seq<Advocate>, term: string)
    ensures forall a :: a in Matching(rows, term) <==> a in rows && Matches(a, term)
    ensures IsSubsequence(Matching(rows, term), rows)
  {
    forall a ensures a in Matching(rows, term) <==> a in rows && Matches(a, term) {
      FilterMembership(rows, MatchPredicate(term), a);
    }
    FilterIsSubsequence(rows, MatchPredicate(term));
  }

  /** With an empty term every row is kept. */
  lemma EmptyTermKeepsAll(rows: seq<Advocate>)
    ensures Matching(rows, "") == rows
  {
    FilterAll(rows, MatchPredicate(""));
  }

  /** Every row of the ordered matches is a row of the table that matches the term. */
  lemma OrderedRowsMatch(rows: seq<Advocate>, term: string)
    ensures forall a :: a in NewestFirst(Matching(rows, term)) ==> a in rows && Matches(a, term)
  {
    forall a | a in NewestFirst(Matching(rows, term)) ensures a in rows && Matches(a, term) {
      assert a in multiset(NewestFirst(Matching(rows, term)));
      FilterMembership(rows, MatchPredicate(term), a);
    }
  }

  /** Ordering newest first gives a descending sequence of timestamps. */
  lemma NewestFirstSorted(rows: seq<Advocate>)
    ensures SortedDesc(NewestFirst(rows), CreatedAt)
  {
  }

  /** Every row of the page is a row of the table that matches the term. */
  lemma QueryRowsMatch(q: Query, rows: seq<Advocate>)
    requires q.limit >= 1
    ensures var r := RunQuery(q, rows);
            forall i :: 0 <= i < |r.data| ==> r.data[i] in rows && Matches(r.data[i], q.term)
  {
    var sorted := NewestFirst(Matching(rows, q.term));
    var data := RunQuery(q, rows).data;
    assert forall i :: 0 <= i < |data| ==> data[i] in sorted;
    OrderedRowsMatch(rows, q.term);
  }

  /** The page is ordered newest first. */
  lemma QuerySorted(q: Query, rows: seq<Advocate>)
    requires q.limit >= 1
    ensures SortedDesc(RunQuery(q, rows).data, CreatedAt)
  {
    var matching := Matching(rows, q.term);
    NewestFirstSorted(matching);
    PageSliceSorted(NewestFirst(matching), q.offset, q.limit, CreatedAt);
  }

  /** A page cut from a descending sequence is descending. */
  lemma PageSliceSorted<T>(s: seq<T>, offset: nat, limit: nat, key: T -> int)
    requires SortedDesc(s, key)
    ensures SortedDesc(PageSlice(s, offset, limit), key)
  {
    var w := PageSlice(s, offset, limit);
    forall i, j | 0 <= i < j < |w| ensures key(w[i]) >= key(w[j]) {
      assert w[i] == s[offset + i] && w[j] == s[offset + j];
    }
  }

  /** The rows of a page are rows of the table that match the term, newest first. */
  lemma QueryPage(q: Query, rows: seq<Advocate>)
    requires q.limit >= 1
    ensures var r := RunQuery(q, rows);
            && (forall i :: 0 <= i < |r.data| ==> r.data[i] in rows && Matches(r.data[i], q.term))
            && SortedDesc(r.data, CreatedAt)
  {
    QueryRowsMatch(q, rows);
    QuerySorted(q, rows);
  }

  /** When a single row matches, the first page holds that row and a count of 1. */
  lemma SingleMatchFirstPage(q: Query, rows: seq<Advocate>, a: Advocate)
    requires q.offset == 0 && q.limit >= 1
    requires Matching(rows, q.term) == [a]
    ensures RunQuery(q, rows) == QueryResult([a], 1)
  {
    assert NewestFirst([a]) == [a];
  }

  /** A successful response is the query's page with the envelope built from its window count. */
  lemma GetOk(q: RawQuery, rows: seq<Advocate>, w: Advocate -> bool)
    requires Get(q, Connected(rows), w).Ok?
    ensures ValidateQuery(q).Success?
    ensures var p := ValidateQuery(q).value;
            var r := Get(q, Connected(rows), w);
            var result := RunQuery(QueryOf(p), rows);
            r.data == result.data && r.pagination == Envelope(p.page, p.limit, result.totalCount)
  {
  }

  /** A valid request against the table answers with the query's page, or fails as a whole. */
  lemma GetConnected(q: RawQuery, rows: seq<Advocate>, w: Advocate -> bool)
    requires ValidateQuery(q).Success?
    ensures var p := ValidateQuery(q).value;
            var result := RunQuery(QueryOf(p), rows);
            Get(q, Connected(rows), w) == Respond(p, result.data, result.totalCount, w)
  {
  }

  /** With an empty (or all white space) search the count is the whole table. */
  lemma EmptySearchCountsAll(q: Query, rows: seq<Advocate>)
    requires q.term == "" && q.limit >= 1
    ensures var r := RunQuery(q, rows);
            r.data != [] ==> r.totalCount == |rows|
  {
    FilterAll(rows, MatchPredicate(""));
  }

  /** With no search, the first page is the newest `limit` rows of the table
      and the count is the whole table. */
  lemma WholeTableFirstPage(q: Query, rows: seq<Advocate>)
    requires q.term == "" && q.offset == 0 && q.limit >= 1
    ensures var r := RunQuery(q, rows);
            && |r.data| == Min(q.limit, |rows|)
            && r.data == NewestFirst(rows)[..|r.data|]
            && r.totalCount == |rows|
  {
    FilterAll(rows, MatchPredicate(""));
    var data := RunQuery(q, rows).data;
    assert data == NewestFirst(rows)[..|data|];
  }

  /** An empty search has nothing to trim. */
  lemma EmptyTrimmed()
    ensures Trim("") == ""
  {
  }

  /** The query of a request without a search term, on its first page. */
  lemma FirstPageQuery(p: Params)
    requires p.search == "" && p.page == 1 && 1 <= p.limit
    ensures QueryOf(p) == Query("", 0, p.limit)
  {
    EmptyTrimmed();
  }

  /** An envelope for no rows has no pages and no next page. */
  lemma EmptyEnvelope(page: int, limit: int)
    requires page >= 1 && limit > 0
    ensures Envelope(page, limit, 0).totalPages == 0 && !Envelope(page, limit, 0).hasNext
  {
    var e := Envelope(page, limit, 0);
    if e.totalPages > 0 {
      MulMonotone(0, e.totalPages - 1, limit);
    }
  }

  /** A page after the last one starts at or after the last row. */
  lemma PastLastPage(page: int, limit: int, total: nat)
    requires 1 <= page && 1 <= limit
    requires page > Envelope(page, limit, total).totalPages
    ensures Offset(page, limit) >= total
  {
    var tp := Envelope(page, limit, total).totalPages;
    MulMonotone(tp, page - 1, limit);
  }

  lemma {:induction false} MulMonotone(a: int, b: int, c: nat)
    requires a <= b
    ensures a * c <= b * c
  {
    if c > 0 {
      MulMonotone(a, b, c - 1);
      assert a * c == a * (c - 1) + a;
      assert b * c == b * (c - 1) + b;
    }
  }

  /** A page past the last match is empty and its envelope reports `total = 0`,
      no pages and no next page, whatever the number of matching rows. */
  lemma PastEndPage(q: Query, page: int, rows: seq<Advocate>)
    requires page >= 1 && q.limit >= 1
    requires q.offset >= |Matching(rows, q.term)|
    ensures var r := RunQuery(q, rows);
            var e := Envelope(page, q.limit, r.totalCount);
            r.data == [] && e.total == 0 && e.totalPages == 0 && !e.hasNext
  {
    EmptyEnvelope(page, q.limit);
  }

  /** The counterexample behind the first-row count: with one matching row,
      the second page of size 1 reports 0 rows in total. */
  lemma PastEndUnderreportsTotal(row: Advocate, w: Advocate -> bool)
    ensures var r := Get(RawQuery(None, Parsed(2), Parsed(1)), Connected([row]), w);
            r.Ok? && r.data == [] && r.pagination.total == 0 && r.pagination.hasPrev
            && |Matching([row], "")| == 1
  {
    var q := RawQuery(None, Parsed(2), Parsed(1));
    assert ValidateQuery(q) == Success(Params("", 2, 1));
    EmptyTrimmed();
    assert QueryOf(Params("", 2, 1)) == Query("", 1, 1);
    FilterAll([row], MatchPredicate(""));
  }

  /** With the exact count, `total` is always the number of matching rows and
      a page past `totalPages` is empty with no next page. */
  lemma ExactTotalCounts(q: RawQuery, rows: seq<Advocate>, w: Advocate -> bool)
    requires GetExactTotal(q, Connected(rows), w).Ok?
    ensures ValidateQuery(q).Success?
    ensures var r := GetExactTotal(q, Connected(rows), w);
            var p := ValidateQuery(q).value;
            && r.data == Get(q, Connected(rows), w).data
            && r.pagination.total == |Matching(rows, Trim(p.search))|
            && (p.page > r.pagination.totalPages ==> r.data == [] && !r.pagination.hasNext)
  {
    var r := GetExactTotal(q, Connected(rows), w);
    var p := ValidateQuery(q).value;
    var query := QueryOf(p);
    var m := |Matching(rows, query.term)|;
    assert r.pagination == Envelope(p.page, p.limit, m);
    if p.page > r.pagination.totalPages {
      PastLastPage(p.page, p.limit, m);
    }
  }

  /** A non-empty term that no field holds does not match. */
  lemma NoFieldMatches(a: Advocate, term: string)
    requires term != ""
    requires !ILike(a.firstName, term) && !ILike(a.lastName, term)
    requires !ILike(a.city, term) && !ILike(a.degree, term)
    requires !(exists sp :: sp in a.specialties && ILike(sp, term))
    requires !ILike(Decimal(a.yearsOfExperience), term)
    ensures !Matches(a, term)
  {
  }
}
