/** The directory page: it loads the advocates once, keeps them, and filters
    them in the browser as the search box changes. */
module HomePage {
  import opened Wrappers
  import opened Sequences
  import opened Text
  import opened Types
  import Route

  /** The lower-cased field holds the (already lower-cased) search text as a block. */
  predicate LowerIncludes(field: string, searchLower: string)
  {
    Contains(Lower(field), searchLower)
  }

  /** The page's filter test: the lower-cased search value inside a lower-cased
      name, city, degree or specialty, or the raw search value inside the
      printed years of experience. */
  predicate ClientMatches(a: Advocate, searchValue: string)
  {
    var searchLower := Lower(searchValue);
    LowerIncludes(a.firstName, searchLower) ||
    LowerIncludes(a.lastName, searchLower) ||
    LowerIncludes(a.city, searchLower) ||
    LowerIncludes(a.degree, searchLower) ||
    (exists sp :: sp in a.specialties && LowerIncludes(sp, searchLower)) ||
    Contains(Decimal(a.yearsOfExperience), searchValue)
  }

  function ClientPredicate(searchValue: string): Advocate -> bool
  {
    a => ClientMatches(a, searchValue)
  }

  /** The loaded advocates that pass the test above, in their order. */
  function ClientFilter(advocates: seq<Advocate>, searchValue: string): seq<Advocate>
  {
    Filter(advocates, ClientPredicate(searchValue))
  }

  /** What `fetch` yields: a response with a status and a parsed body, or a thrown error
      (an `Error` with its message, or anything else). */
  datatype FetchOutcome = Received(status: int, data: seq<Advocate>) | Thrown(message: Option<string>)

  /** A successful HTTP status: from 200 to 299. */
  predicate IsOkStatus(status: int)
  {
    200 <= status <= 299
  }

  const FallbackError := "Failed to fetch advocates"
  const NoMatchMessage := "No advocates found matching your search."
  const NoRowsMessage := "No advocates available."

  /** The message shown for a non-2xx response. */
  function HttpError(status: int): string
  {
    "HTTP error! status: " + Decimal(status)
  }

  /** What the page shows. */
  datatype Screen = Loading | ErrorBanner(message: string) | EmptyNotice(message: string) | Table(rows: seq<Advocate>)

  /** The page's state hooks and its handlers. */
  class Home {
    var advocates: seq<Advocate>
    var filteredAdvocates: seq<Advocate>
    var searchTerm: string
    var loading: bool
    var error: Option<string>

    /** The rows on show are always drawn, in order, from the loaded ones. */
    ghost predicate Valid()
      reads this
    {
      IsSubsequence(filteredAdvocates, advocates)
    }

    /** The rows on show are exactly the loaded ones that pass the filter for the search box. */
    ghost predicate Consistent()
      reads this
    {
      filteredAdvocates == ClientFilter(advocates, searchTerm)
    }

    /** Empty lists, an empty search box, loading and no error. */
    constructor()
      ensures advocates == [] && filteredAdvocates == [] && searchTerm == ""
      ensures loading && error == None
      ensures Valid() && Consistent()
    {
      advocates := [];
      filteredAdvocates := [];
      searchTerm := "";
      loading := true;
      error := None;
    }

    /** The effect run on mount: on a 2xx response both lists become the
        response's rows; otherwise the error message is set and the lists stay. */
    method FetchAdvocates(outcome: FetchOutcome)
      requires Valid()
      modifies this
      ensures Valid()
      ensures !loading && searchTerm == old(searchTerm)
      ensures outcome.Received? && IsOkStatus(outcome.status) ==>
                error == None && advocates == outcome.data && filteredAdvocates == outcome.data
      ensures outcome.Received? && !IsOkStatus(outcome.status) ==>
                error == Some(HttpError(outcome.status))
      ensures outcome.Thrown? ==>
                error == Some(if outcome.message.Some? then outcome.message.value else FallbackError)
      ensures error != None ==>
                advocates == old(advocates) && filteredAdvocates == old(filteredAdvocates)
      ensures old(searchTerm) == "" && error == None ==> Consistent()
    {
      loading := true;
      error := None;
      match outcome {
        case Received(status, data) =>
          if !IsOkStatus(status) {
            error := Some(HttpError(status));
          } else {
            advocates := data;
            filteredAdvocates := data;
            EmptySearchKeepsAll(data);
            SubsequenceOfItself(data);
          }
        case Thrown(message) =>
          error := Some(if message.Some? then message.value else FallbackError);
      }
      loading := false;
    }

    /** Typing into the search box: the raw value becomes the search term and
        the rows on show are the loaded ones that pass the filter for it. */
    method HandleSearchChange(searchValue: string)
      requires Valid()
      modifies this
      ensures Valid() && Consistent()
      ensures searchTerm == searchValue
      ensures filteredAdvocates == ClientFilter(advocates, searchValue)
      ensures advocates == old(advocates) && loading == old(loading) && error == old(error)
    {
      searchTerm := searchValue;
      var filtered := ClientFilter(advocates, searchValue);
      FilterIsSubsequence(advocates, ClientPredicate(searchValue));
      filteredAdvocates := filtered;
    }

    /** The reset button: an empty search box and every loaded row on show. */
    method HandleResetSearch()
      requires Valid()
      modifies this
      ensures Valid() && Consistent()
      ensures searchTerm == "" && filteredAdvocates == advocates
      ensures advocates == old(advocates) && loading == old(loading) && error == old(error)
    {
      searchTerm := "";
      filteredAdvocates := advocates;
      EmptySearchKeepsAll(advocates);
      SubsequenceOfItself(advocates);
    }

    /** The screen: the loading notice, then a (non-empty) error, then an empty
        notice or the table of the rows on show. */
    function View(): (s: Screen)
      reads this
      ensures s.Loading? <==> loading
      ensures s.ErrorBanner? <==> !loading && error.Some? && error.value != ""
      ensures s.Table? ==> s.rows == filteredAdvocates && s.rows != []
      ensures s.ErrorBanner? ==> s.message == error.value
      ensures s.EmptyNotice? ==>
                filteredAdvocates == [] && s.message == (if searchTerm != "" then NoMatchMessage else NoRowsMessage)
    {
      if loading then Loading
      else if error.Some? && error.value != "" then ErrorBanner(error.value)
      else if filteredAdvocates == [] then
        EmptyNotice(if searchTerm != "" then NoMatchMessage else NoRowsMessage)
      else Table(filteredAdvocates)
    }
  }

  /** A sequence is a subsequence of itself. */
  lemma {:induction false} SubsequenceOfItself<T>(s: seq<T>)
    ensures IsSubsequence(s, s)
  {
    if s != [] {
      SubsequenceOfItself(s[1..]);
    }
  }

  /** An advocate is on show exactly when it was loaded and passes the filter. */
  lemma ClientFilterMembers(advocates: seq<Advocate>, searchValue: string, a: Advocate)
    ensures a in ClientFilter(advocates, searchValue) <==> a in advocates && ClientMatches(a, searchValue)
  {
    FilterMembership(advocates, ClientPredicate(searchValue), a);
  }

  /** An empty search box keeps every row. */
  lemma EmptySearchKeepsAll(advocates: seq<Advocate>)
    ensures ClientFilter(advocates, "") == advocates
  {
    forall i | 0 <= i < |advocates| ensures ClientMatches(advocates[i], "") {
      assert Lower("") == "";
    }
    FilterAll(advocates, ClientPredicate(""));
  }

  /** Filtering again for the same value changes nothing. */
  lemma ClientFilterIdempotent(advocates: seq<Advocate>, searchValue: string)
    ensures ClientFilter(ClientFilter(advocates, searchValue), searchValue) == ClientFilter(advocates, searchValue)
  {
    FilterIdempotent(advocates, ClientPredicate(searchValue));
  }

  /** Printed numbers are unchanged by case folding. */
  lemma LowerDecimal(n: int)
    ensures Lower(Decimal(n)) == Decimal(n)
  {
    var d := Decimal(n);
    forall k | 0 <= k < |d| ensures Lower(d)[k] == d[k] {
      DecimalHasNoLetters(n, k);
    }
  }

  /** Searching the printed years with or without case folding agrees: the
      digits carry no letters, so a value with an upper-case letter is found
      neither way, and one without is its own lower-case form. */
  lemma YearsSearchIgnoresCase(n: int, v: string)
    ensures Contains(Decimal(n), v) <==> Contains(Lower(Decimal(n)), Lower(v))
  {
    var d := Decimal(n);
    LowerDecimal(n);
    if k :| 0 <= k < |v| && 'A' <= v[k] <= 'Z' {
      forall j | 0 <= j < |d| ensures d[j] != v[k] && d[j] != Lower(v)[k] {
        DecimalHasNoLetters(n, j);
      }
      MissingCharNotContained(d, v, k);
      MissingCharNotContained(d, Lower(v), k);
    } else {
      assert Lower(v) == v;
    }
  }

  /** The page's filter and the endpoint's match test agree on every advocate
      and every term. */
  lemma ClientAgreesWithServer(a: Advocate, v: string)
    ensures ClientMatches(a, v) <==> Route.Matches(a, v)
  {
    YearsSearchIgnoresCase(a.yearsOfExperience, v);
    if v == "" {
      assert Lower(v) == "";
    }
  }

  /** For a search value without surrounding white space, filtering in the
      browser keeps the same rows, in the same order, as the endpoint's filter. */
  lemma ClientFilterIsServerFilter(advocates: seq<Advocate>, v: string)
    requires Trim(v) == v
    ensures ClientFilter(advocates, v) == Route.Matching(advocates, Trim(v))
  {
    forall i | 0 <= i < |advocates|
      ensures ClientPredicate(v)(advocates[i]) == Route.MatchPredicate(v)(advocates[i])
    {
      ClientAgreesWithServer(advocates[i], v);
    }
    FilterAgree(advocates, ClientPredicate(v), Route.MatchPredicate(v));
  }

  /** The page asks the endpoint with no parameters, so what it loads is the
      first page of twenty: the newest twenty rows at most. */
  lemma MountLoadsNewestTwenty(rows: seq<Advocate>, w: Advocate -> bool)
    requires Route.Get(Route.RawQuery(None, Route.Absent, Route.Absent), Route.Connected(rows), w).Ok?
    ensures var r := Route.Get(Route.RawQuery(None, Route.Absent, Route.Absent), Route.Connected(rows), w);
            && |r.data| == Min(Route.DefaultLimit, |rows|)
            && r.data == Route.NewestFirst(rows)[..|r.data|]
  {
    var q := Route.RawQuery(None, Route.Absent, Route.Absent);
    Route.DefaultsAreValid();
    Route.GetOk(q, rows, w);
    Route.FirstPageQuery(Route.ValidateQuery(q).value);
    Route.WholeTableFirstPage(Route.Query("", 0, Route.DefaultLimit), rows);
  }
}
