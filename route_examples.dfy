/** Worked examples of the endpoint: a search for "onco" over two records,
    and the default page over 45 rows. */
module RouteExamples {
  import opened Wrappers
  import opened Text
  import opened Sequences
  import opened Types
  import opened Route

  // The example of a search for "onco" over two records.
  const Jane := Advocate(1, "Jane", "Doe", "Austin", "MD", ["Oncology"], 5, 5551234567, 2)
  const Bob := Advocate(2, "Bob", "Roe", "Dallas", "PhD", ["Cardiology"], 7, 5559876543, 1)

  /** None of Bob's fields holds "onco": none of them even holds an 'n'. */
  lemma BobMissesOnco()
    ensures !Matches(Bob, "onco")
  {
    BobNameMissesOnco();
    BobDetailsMissOnco();
    NoFieldMatches(Bob, "onco");
  }

  lemma BobNameMissesOnco()
    ensures !ILike(Bob.firstName, "onco") && !ILike(Bob.lastName, "onco") && !ILike(Bob.city, "onco")
  {
    FieldMissesOnco("Bob");
    FieldMissesOnco("Roe");
    FieldMissesOnco("Dallas");
  }

  lemma BobDetailsMissOnco()
    ensures !ILike(Bob.degree, "onco") && !(exists sp :: sp in Bob.specialties && ILike(sp, "onco"))
    ensures !ILike(Decimal(Bob.yearsOfExperience), "onco")
  {
    FieldMissesOnco("PhD");
    FieldMissesOnco("Cardiology");
    assert Decimal(7) == "7";
    FieldMissesOnco("7");
  }

  /** A field without the letter n, in either case, does not hold "onco". */
  lemma FieldMissesOnco(s: string)
    requires 'n' !in s && 'N' !in s
    ensures !ILike(s, "onco")
  {
    LowerMember(s, 'n');
    assert Lower("onco") == "onco";
    MissingCharNotContained(Lower(s), "onco", 1);
  }

  /** Jane's specialty "Oncology" holds "onco" once case is folded. */
  lemma JaneMatchesOnco()
    ensures Matches(Jane, "onco")
  {
    var l := Lower("Oncology");
    assert l[0] == 'o' && l[1] == 'n' && l[2] == 'c' && l[3] == 'o';
    assert Lower("onco") == "onco" && "onco" <= l;
    assert ILike("Oncology", "onco");
  }

  /** Of two rows, a term that matches only the first keeps the first. */
  lemma FirstOfTwoMatches(a: Advocate, b: Advocate, term: string)
    requires Matches(a, term) && !Matches(b, term)
    ensures Matching([a, b], term) == [a]
  {
    assert [a, b][1..] == [b];
    assert [b][1..] == [];
  }

  /** Of Jane and Bob, the term "onco" keeps Jane only. */
  lemma OncoMatching()
    ensures Matching([Jane, Bob], "onco") == [Jane]
  {
    JaneMatchesOnco();
    BobMissesOnco();
    FirstOfTwoMatches(Jane, Bob, "onco");
  }

  /** The request `?search=onco` is valid, with the default page and limit. */
  lemma OncoValid()
    ensures ValidateQuery(RawQuery(Some("onco"), Absent, Absent)) == Success(Params("onco", 1, 20))
  {
  }

  /** The query for "onco" returns Jane alone, through her specialty, with a count of 1. */
  lemma OncoQuery()
    ensures QueryOf(Params("onco", 1, 20)) == Query("onco", 0, 20)
    ensures RunQuery(Query("onco", 0, 20), [Jane, Bob]) == QueryResult([Jane], 1)
  {
    OncoTrimmed();
    OncoMatching();
    SingleMatchFirstPage(Query("onco", 0, 20), [Jane, Bob], Jane);
  }

  /** "onco" carries no white space to trim. */
  lemma OncoTrimmed()
    ensures Trim("onco") == "onco"
  {
  }

  /** 45 rows, no search, default page and limit: 20 rows, 3 pages, a next page and no previous one. */
  lemma FortyFiveRowsExample(rows: seq<Advocate>, w: Advocate -> bool)
    requires |rows| == 45 && forall a :: w(a)
    ensures var r := Get(RawQuery(None, Absent, Absent), Connected(rows), w);
            r.Ok? && |r.data| == 20 && r.pagination == PaginationInfo(1, 20, 45, 3, true, false)
  {
    var p := Params("", DefaultPage, DefaultLimit);
    DefaultsAreValid();
    FirstPageQuery(p);
    GetConnected(RawQuery(None, Absent, Absent), rows, w);
    var result := RunQuery(Query("", 0, DefaultLimit), rows);
    FortyFiveQuery(rows);
    DefaultEnvelopeOf45();
    assert Get(RawQuery(None, Absent, Absent), Connected(rows), w) == Respond(p, result.data, 45, w);
  }

  /** The query behind it: the first 20 of 45 rows, with a count of 45. */
  lemma FortyFiveQuery(rows: seq<Advocate>)
    requires |rows| == 45
    ensures var result := RunQuery(Query("", 0, DefaultLimit), rows);
            |result.data| == 20 && result.totalCount == 45
  {
    WholeTableFirstPage(Query("", 0, DefaultLimit), rows);
  }

  /** 45 rows at 20 a page make three pages; the first has a next page and no previous one. */
  lemma DefaultEnvelopeOf45()
    ensures Envelope(1, 20, 45) == PaginationInfo(1, 20, 45, 3, true, false)
  {
    assert CeilDiv(45, 20) == 3;
  }
}
