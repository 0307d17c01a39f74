/**
 * The places catalog route: `GET /` filters the catalog by season, state
 * and a free-text search term, widening a fruitless search to a region
 * match over the whole catalog; `GET /seasons` and `GET /states` list the
 * distinct season and state values, sorted.
 *
 * The catalog is a parameter; the route's own literal array is one value
 * of it.
 */
module PlacesRoute {
  import opened JsStrings
  import opened Sequences
  import opened JsSort

  datatype Option<T> = None | Some(value: T)

  /** One catalog record. Coordinates and image are carried along and never inspected. */
  datatype Place = Place(
    id: int,
    name: string,
    description: string,
    latitude: real,
    longitude: real,
    season: string,
    image: string,
    state: string,
    district: string)

  /** The three query-string parameters of `GET /`; `None` is an absent parameter. */
  datatype PlaceQuery = PlaceQuery(season: Option<string>, state: Option<string>, search: Option<string>)

  /** The season tag that matches every season, and the season value that asks for no filtering. */
  const AllSeasons: string := "all"

  /** JavaScript truthiness of a query parameter: absent and empty are both false. */
  predicate Given(param: Option<string>) {
    param.Some? && param.value != ""
  }

  /** The season filter runs only for a given season other than "all". */
  predicate SeasonFilterActive(season: Option<string>) {
    Given(season) && season.value != AllSeasons
  }

  predicate SeasonMatches(p: Place, season: string) {
    p.season == season || p.season == AllSeasons
  }

  predicate StateMatches(p: Place, state: string) {
    ToLower(p.state) == ToLower(state)
  }

  /** A field takes part in the search only when it is a non-empty string. */
  predicate FieldContains(field: string, term: string) {
    field != "" && Includes(ToLower(field), term)
  }

  /**
   * The primary search: the lower-cased term occurs in name, description,
   * state or district. The non-empty guards only matter for an empty term,
   * which the route never searches for.
   */
  function MatchesSearch(p: Place, term: string): (r: bool)
    ensures term != "" ==> (r <==>
      || Includes(ToLower(p.name), term)
      || Includes(ToLower(p.description), term)
      || Includes(ToLower(p.state), term)
      || Includes(ToLower(p.district), term))
  {
    || FieldContains(p.name, term)
    || FieldContains(p.description, term)
    || FieldContains(p.state, term)
    || FieldContains(p.district, term)
  }

  /** The fallback search: the lower-cased term occurs in state or district, so the place also passes the primary search. */
  function MatchesRegion(p: Place, term: string): (r: bool)
    ensures r ==> MatchesSearch(p, term)
    ensures term != "" ==> (r <==> Includes(ToLower(p.state), term) || Includes(ToLower(p.district), term))
  {
    FieldContains(p.state, term) || FieldContains(p.district, term)
  }

  /** The place passes every criterion the query gives; a criterion not given passes everything. */
  predicate Matches(q: PlaceQuery, p: Place) {
    && (SeasonFilterActive(q.season) ==> SeasonMatches(p, q.season.value))
    && (Given(q.state) ==> StateMatches(p, q.state.value))
    && (Given(q.search) ==> MatchesSearch(p, ToLower(q.search.value)))
  }

  /** The season step of `GET /`. */
  function FilterSeason(places: seq<Place>, season: Option<string>): (r: seq<Place>)
    ensures !SeasonFilterActive(season) ==> r == places
    ensures SeasonFilterActive(season) ==>
      forall p :: multiset(r)[p] == if SeasonMatches(p, season.value) then multiset(places)[p] else 0
    ensures IsSubsequence(r, places)
  {
    if SeasonFilterActive(season) then Filter(places, p => SeasonMatches(p, season.value))
    else SubsequenceReflexive(places); places
  }

  /** The state step of `GET /`: a case-insensitive exact match. */
  function FilterState(places: seq<Place>, state: Option<string>): (r: seq<Place>)
    ensures !Given(state) ==> r == places
    ensures Given(state) ==>
      forall p :: multiset(r)[p] == if StateMatches(p, state.value) then multiset(places)[p] else 0
    ensures IsSubsequence(r, places)
  {
    if Given(state) then Filter(places, p => StateMatches(p, state.value))
    else SubsequenceReflexive(places); places
  }

  /**
   * The season, state and search steps, before any fallback: exactly the
   * catalog places that pass every given criterion, in catalog order.
   */
  function Narrowed(catalog: seq<Place>, q: PlaceQuery): (r: seq<Place>)
    ensures KeepsExactly(r, catalog, p => Matches(q, p))
  {
    var bySeason := FilterSeason(catalog, q.season);
    var byState := FilterState(bySeason, q.state);
    SubsequenceTransitive(byState, bySeason, catalog);
    if Given(q.search) then
      var found := Filter(byState, p => MatchesSearch(p, ToLower(q.search.value)));
      SubsequenceTransitive(found, byState, catalog);
      found
    else byState
  }

  /**
   * `GET /`: the filtered places, or the region fallback when a search found
   * nothing. Without a search term, or when some catalog place passes every
   * given criterion, the result is exactly the places passing them all;
   * otherwise it is exactly the catalog places whose state or district holds
   * the term, and the season and state criteria play no part.
   */
  function QueryPlaces(catalog: seq<Place>, q: PlaceQuery): (r: seq<Place>)
    ensures (!Given(q.search) || exists i :: 0 <= i < |catalog| && Matches(q, catalog[i])) ==>
      KeepsExactly(r, catalog, p => Matches(q, p))
    ensures (Given(q.search) && forall i :: 0 <= i < |catalog| ==> !Matches(q, catalog[i])) ==>
      KeepsExactly(r, catalog, p => MatchesRegion(p, ToLower(q.search.value)))
  {
    var found := Narrowed(catalog, q);
    KeepsNothing(found, catalog, p => Matches(q, p));
    if Given(q.search) && |found| == 0 then
      Filter(catalog, p => MatchesRegion(p, ToLower(q.search.value)))
    else found
  }

  /** No place is invented, duplicated or reordered, on the normal path or the fallback path. */
  lemma QueryIsSubsequence(catalog: seq<Place>, q: PlaceQuery)
    ensures IsSubsequence(QueryPlaces(catalog, q), catalog)
  {
  }

  /** With no criterion at all the whole catalog comes back. */
  lemma QueryWithoutCriteria(catalog: seq<Place>, q: PlaceQuery)
    requires !SeasonFilterActive(q.season) && !Given(q.state) && !Given(q.search)
    ensures QueryPlaces(catalog, q) == catalog
  {
  }

  /** Whenever a search term is given, every returned place holds it in one of the four searched fields. */
  lemma QueryResultsContainTerm(catalog: seq<Place>, q: PlaceQuery)
    requires Given(q.search)
    ensures forall p :: p in QueryPlaces(catalog, q) ==> MatchesSearch(p, ToLower(q.search.value))
  {
    var r := QueryPlaces(catalog, q);
    forall p | p in r
      ensures MatchesSearch(p, ToLower(q.search.value))
    {
      assert p in multiset(r);
    }
  }

  /** The state criterion ignores ASCII case: "meghalaya" and "Meghalaya" select the same places. */
  lemma QueryStateIgnoresCase(catalog: seq<Place>, q: PlaceQuery, a: string, b: string)
    requires EqualIgnoringCase(a, b)
    ensures QueryPlaces(catalog, q.(state := Some(a))) == QueryPlaces(catalog, q.(state := Some(b)))
  {
    EqualIgnoringCaseLowers(a, b);
    var qa, qb := q.(state := Some(a)), q.(state := Some(b));
    assert forall p :: Matches(qa, p) == Matches(qb, p);
    FilterUnique(Narrowed(catalog, qa), catalog, p => Matches(qa, p));
    FilterUnique(Narrowed(catalog, qb), catalog, p => Matches(qb, p));
    assert Filter(catalog, p => Matches(qa, p)) == Filter(catalog, p => Matches(qb, p)) by {
      FilterAgree(catalog, p => Matches(qa, p), p => Matches(qb, p));
    }
  }

  lemma QueryMeghalayaIgnoresCase(catalog: seq<Place>, q: PlaceQuery)
    ensures QueryPlaces(catalog, q.(state := Some("meghalaya"))) == QueryPlaces(catalog, q.(state := Some("Meghalaya")))
  {
    assert EqualIgnoringCase("meghalaya", "Meghalaya");
    QueryStateIgnoresCase(catalog, q, "meghalaya", "Meghalaya");
  }

  lemma {:induction false} FilterAgree(s: seq<Place>, f: Place -> bool, g: Place -> bool)
    requires forall p :: f(p) == g(p)
    ensures Filter(s, f) == Filter(s, g)
    decreases |s|
  {
    if |s| > 0 {
      FilterAgree(s[1..], f, g);
    }
  }

  /**
   * The fallback drops the season filter: a winter search for "Khasi" over
   * a monsoon place in the Khasi Hills and a winter place elsewhere returns
   * the monsoon place, which the season filter had removed.
   */
  lemma FallbackIgnoresSeason(hills: Place, temple: Place)
    requires hills.season == "monsoon" && hills.district == "Khasi Hills"
    requires temple.season == "winter" && temple.name == "Temple" && temple.description == ""
    requires temple.state == "Assam" && temple.district == "Guwahati"
    ensures QueryPlaces([hills, temple], PlaceQuery(Some("winter"), None, Some("Khasi"))) == [hills]
  {
    var catalog := [hills, temple];
    var q := PlaceQuery(Some("winter"), None, Some("Khasi"));
    var region := p => MatchesRegion(p, ToLower(q.search.value));
    SampleNoneMatches(hills, temple, q);
    assert forall i :: 0 <= i < |catalog| ==> !Matches(q, catalog[i]);
    KeepsFirstOfTwo(QueryPlaces(catalog, q), hills, temple, region);
  }

  /** Neither sample place passes the winter search for "Khasi"; only the first lies in the region. */
  lemma SampleNoneMatches(hills: Place, temple: Place, q: PlaceQuery)
    requires hills.season == "monsoon" && hills.district == "Khasi Hills"
    requires temple.season == "winter" && temple.name == "Temple" && temple.description == ""
    requires temple.state == "Assam" && temple.district == "Guwahati"
    requires q == PlaceQuery(Some("winter"), None, Some("Khasi"))
    ensures !Matches(q, hills) && !Matches(q, temple)
    ensures MatchesRegion(hills, ToLower(q.search.value)) && !MatchesRegion(temple, ToLower(q.search.value))
  {
    assert ToLower("Khasi") == "khasi";
    SampleTempleMisses(temple);
    SampleHillsInRegion(hills);
  }

  lemma SampleTempleMisses(temple: Place)
    requires temple.name == "Temple" && temple.description == ""
    requires temple.state == "Assam" && temple.district == "Guwahati"
    ensures !MatchesSearch(temple, "khasi")
  {
    assert ToLower("Temple") == "temple";
    assert ToLower("Assam") == "assam";
    assert ToLower("Guwahati") == "guwahati";
    IncludesFirstChar("temple", "khasi");
    IncludesFirstChar("assam", "khasi");
    IncludesFirstChar("guwahati", "khasi");
  }

  lemma SampleHillsInRegion(hills: Place)
    requires hills.district == "Khasi Hills"
    ensures MatchesRegion(hills, "khasi")
  {
    assert ToLower("Khasi Hills")[0..5] == "khasi";
    assert OccursAt(ToLower("Khasi Hills"), "khasi", 0);
  }

  /** `Set.add` over the catalog in order: the distinct values of `field`. */
  method CollectDistinct(catalog: seq<Place>, field: Place -> string) returns (unique: seq<string>)
    ensures NoDuplicates(unique)
    ensures forall v :: v in unique <==> exists i :: 0 <= i < |catalog| && field(catalog[i]) == v
  {
    unique := [];
    for i := 0 to |catalog|
      invariant NoDuplicates(unique)
      invariant forall v :: v in unique <==> exists k :: 0 <= k < i && field(catalog[k]) == v
    {
      var v := field(catalog[i]);
      if v !in unique {
        unique := unique + [v];
      }
    }
  }

  /** `Array.from(set).sort()`: the distinct values of `field`, strictly ascending. */
  method SortedDistinct(catalog: seq<Place>, field: Place -> string) returns (values: seq<string>)
    ensures StrictlySorted(values)
    ensures forall v :: v in values <==> exists i :: 0 <= i < |catalog| && field(catalog[i]) == v
  {
    var unique := CollectDistinct(catalog, field);
    values := Sort(unique);
    PermutationKeepsNoDuplicates(unique, values);
    SortedDistinctIsStrict(values);
    forall v
      ensures v in values <==> v in unique
    {
      assert v in values <==> v in multiset(values);
      assert v in unique <==> v in multiset(unique);
    }
  }

  /** `GET /seasons`. */
  method Seasons(catalog: seq<Place>) returns (seasons: seq<string>)
    ensures StrictlySorted(seasons)
    ensures forall v :: v in seasons <==> exists i :: 0 <= i < |catalog| && catalog[i].season == v
  {
    seasons := SortedDistinct(catalog, (p: Place) => p.season);
  }

  /** `GET /states`. */
  method States(catalog: seq<Place>) returns (states: seq<string>)
    ensures StrictlySorted(states)
    ensures forall v :: v in states <==> exists i :: 0 <= i < |catalog| && catalog[i].state == v
  {
    states := SortedDistinct(catalog, (p: Place) => p.state);
  }
}
