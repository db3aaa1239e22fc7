/**
 * The three questions the tool answers over a loaded sheet. Each is a pure
 * function of the table and the text the user typed; the table is a value
 * and no query changes it.
 */
module Query {
  import opened Text
  import opened Selection
  import opened Sorting

  /** One data record, with the columns the queries read. */
  datatype Row = Row(
    company: string,
    country: string,
    year: int,
    keyword1: string,
    keyword2: string,
    keyword3: string,
    keyword4: string)

  type Table = seq<Row>

  /**
   * What a query gives back: `Empty` when nothing was typed, `NotFound` when a
   * country has no rows, otherwise a count and the rows to show.
   */
  datatype QueryResult = Empty | NotFound | Rows(count: nat, rows: seq<Row>)

  /** The boolean masks the queries filter with. */
  datatype Criterion =
    | CompanyIs(name: string)   // Company, lower-cased, equals the input lower-cased
    | CountryIs(name: string)   // Country, lower-cased, equals the input lower-cased
    | KeywordHas(term: string)  // some Keyword column, lower-cased, contains the (lower-case) term

  predicate Holds(c: Criterion, r: Row) {
    match c
    case CompanyIs(name) => Lower(r.company) == Lower(name)
    case CountryIs(name) => Lower(r.country) == Lower(name)
    case KeywordHas(term) =>
      || Contains(Lower(r.keyword1), term)
      || Contains(Lower(r.keyword2), term)
      || Contains(Lower(r.keyword3), term)
      || Contains(Lower(r.keyword4), term)
  }

  /** The mask as a function on rows, for filtering with `Select`. */
  function Mask(c: Criterion): Row -> bool {
    r => Holds(c, r)
  }

  // ---------------------------------------------------------------------------
  // How many projects were done for a company?

  /**
   * With a non-empty name: the rows whose Company equals the name up to case,
   * in table order, and their number. With an empty name: no result.
   */
  function CountByCompany(t: Table, name: string): (res: QueryResult)
    ensures res == Empty <==> name == ""
    ensures res != Empty ==> res.Rows? && res.count == |res.rows| == MatchCount(t, Mask(CompanyIs(name)))
    ensures res != Empty ==> Picks(t, Mask(CompanyIs(name)), MatchIndices(t, Mask(CompanyIs(name))), res.rows)
  {
    if name == "" then Empty
    else
      var matching := Select(t, Mask(CompanyIs(name)));
      SelectPicks(t, Mask(CompanyIs(name)));
      SelectCount(t, Mask(CompanyIs(name)));
      Rows(|matching|, matching)
  }

  /**
   * Matching is equality, not containment: a Company that merely contains the
   * name as a proper part is not returned.
   */
  lemma CompanyMatchIsExact(t: Table, name: string, i: int)
    requires 0 <= i < |t| && name != ""
    requires Contains(Lower(t[i].company), Lower(name)) && |name| < |t[i].company|
    ensures t[i] !in CountByCompany(t, name).rows
  {
    SelectMembership(t, Mask(CompanyIs(name)), t[i]);
  }

  // ---------------------------------------------------------------------------
  // Which is the last project done in a country?

  function YearOf(r: Row): int { r.year }

  /**
   * With a non-empty country: `NotFound` when no row's Country equals it up
   * to case, otherwise one matching row whose Year is the largest among the
   * matching rows. With an empty country: no result.
   */
  function LastInCountry(t: Table, country: string): (res: QueryResult)
    ensures res == Empty <==> country == ""
    ensures res == NotFound <==>
      country != "" && forall i :: 0 <= i < |t| ==> !Holds(CountryIs(country), t[i])
    ensures res.Rows? ==>
      && res.count == 1 && |res.rows| == 1
      && res.rows[0] in t && Holds(CountryIs(country), res.rows[0])
      && forall i :: 0 <= i < |t| && Holds(CountryIs(country), t[i]) ==> t[i].year <= res.rows[0].year
  {
    if country == "" then Empty
    else
      var matching := Select(t, Mask(CountryIs(country)));
      assert matching == [] <==> forall i :: 0 <= i < |t| ==> !Holds(CountryIs(country), t[i]) by {
        forall i | 0 <= i < |t| {
          SelectMembership(t, Mask(CountryIs(country)), t[i]);
        }
        if matching != [] {
          SelectMembership(t, Mask(CountryIs(country)), matching[0]);
        }
      }
      if matching == [] then NotFound
      else
        var sorted := SortDesc(matching, YearOf);
        FirstIsLargest(matching, YearOf);
        SelectMembership(t, Mask(CountryIs(country)), sorted[0]);
        assert forall i :: 0 <= i < |t| && Holds(CountryIs(country), t[i]) ==> t[i] in matching by {
          forall i | 0 <= i < |t| && Holds(CountryIs(country), t[i]) ensures t[i] in matching {
            SelectMembership(t, Mask(CountryIs(country)), t[i]);
          }
        }
        Rows(1, sorted[..1])
  }

  // ---------------------------------------------------------------------------
  // How many projects were done on a topic (keyword)?

  /**
   * The input is lower-cased first. With a non-empty input: the rows one of
   * whose four Keyword columns, lower-cased, contains it, in table order, and
   * their number. With an empty input: no result.
   */
  function CountByKeyword(t: Table, input: string): (res: QueryResult)
    ensures res == Empty <==> input == ""
    ensures res != Empty ==> res.Rows? && res.count == |res.rows| == MatchCount(t, Mask(KeywordHas(Lower(input))))
    ensures res != Empty ==> Picks(t, Mask(KeywordHas(Lower(input))), MatchIndices(t, Mask(KeywordHas(Lower(input)))), res.rows)
  {
    var term := Lower(input);
    if term == "" then Empty
    else
      var matching := Select(t, Mask(KeywordHas(term)));
      SelectPicks(t, Mask(KeywordHas(term)));
      SelectCount(t, Mask(KeywordHas(term)));
      Rows(|matching|, matching)
  }

  /** A row is selected exactly when the lower-cased input occurs in one of its keyword cells. */
  lemma KeywordMatchMeaning(r: Row, input: string)
    ensures Holds(KeywordHas(Lower(input)), r) <==>
      || Occurs(Lower(input), Lower(r.keyword1))
      || Occurs(Lower(input), Lower(r.keyword2))
      || Occurs(Lower(input), Lower(r.keyword3))
      || Occurs(Lower(input), Lower(r.keyword4))
  {
    ContainsOccurs(Lower(r.keyword1), Lower(input));
    ContainsOccurs(Lower(r.keyword2), Lower(input));
    ContainsOccurs(Lower(r.keyword3), Lower(input));
    ContainsOccurs(Lower(r.keyword4), Lower(input));
  }

  /** Columns other than the four keyword columns never change which rows match, nor how many. */
  lemma KeywordIgnoresOtherColumns(t1: Table, t2: Table, input: string)
    requires |t1| == |t2|
    requires forall i :: 0 <= i < |t1| ==>
      && t1[i].keyword1 == t2[i].keyword1 && t1[i].keyword2 == t2[i].keyword2
      && t1[i].keyword3 == t2[i].keyword3 && t1[i].keyword4 == t2[i].keyword4
    ensures MatchIndices(t1, Mask(KeywordHas(Lower(input)))) == MatchIndices(t2, Mask(KeywordHas(Lower(input))))
    ensures CountByKeyword(t1, input) == Empty <==> CountByKeyword(t2, input) == Empty
    ensures CountByKeyword(t1, input).Rows? ==> CountByKeyword(t1, input).count == CountByKeyword(t2, input).count
  {
    SelectAgrees(t1, Mask(KeywordHas(Lower(input))), t2, Mask(KeywordHas(Lower(input))));
  }

  // ---------------------------------------------------------------------------
  // Properties shared by the three queries

  /** The typed text is compared without regard to case, in all three queries. */
  lemma QueriesIgnoreInputCase(t: Table, a: string, b: string)
    requires Lower(a) == Lower(b)
    ensures CountByCompany(t, a) == CountByCompany(t, b)
    ensures LastInCountry(t, a) == LastInCountry(t, b)
    ensures CountByKeyword(t, a) == CountByKeyword(t, b)
  {
    SelectAgrees(t, Mask(CompanyIs(a)), t, Mask(CompanyIs(b)));
    SelectAgrees(t, Mask(CountryIs(a)), t, Mask(CountryIs(b)));
  }
}
