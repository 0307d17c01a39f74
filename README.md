# Places catalog query, in Dafny

A model of the places route of a tourist-information backend for Meghalaya and
Guwahati (`backend/routes/places.js`). The route serves a fixed catalog of
places of interest and answers three requests:

- `GET /` filters the catalog by an optional season (`"all"` is a wildcard on
  both the query and the place), an optional state (case-insensitive exact
  match) and an optional search term (case-insensitive substring of name,
  description, state or district). When a search leaves nothing, the route
  goes back to the whole catalog and keeps the places whose state or district
  contains the term, dropping the season and state filters on purpose.
- `GET /seasons` and `GET /states` collect the distinct season or state
  values into a `Set` and return them sorted.

The model is in four modules:

- `JsStrings` (`js_strings.dfy`): `toLowerCase` on ASCII letters,
  `includes` as a substring test, and the string order of the default
  `Array.prototype.sort`, characterized by the first differing position,
  with the order's laws (irreflexive, transitive, total, asymmetric).
- `Sequences` (`sequences.dfy`): `Array.prototype.filter` and the predicate
  `KeepsExactly(r, s, keep)`: `r` is a subsequence of `s` (nothing invented,
  duplicated or reordered) and holds every copy of each element that
  satisfies `keep` and no copy of any other. `FilterUnique` shows this
  predicate pins down the filter's result.
- `JsSort` (`js_sort.dfy`): the default sort on strings, as an insertion
  sort proved to return an ascending permutation. `SortedUnique` shows that
  a strictly ascending list is fixed by its set of elements, so for the
  duplicate-free arrays the route sorts, any correct sort gives the same
  answer.
- `PlacesRoute` (`places.dfy`): the `Place` record, the query, the `GET /`
  pipeline as composed functions (`FilterSeason`, `FilterState`, `Narrowed`,
  `QueryPlaces`) whose contracts and lemmas state what it returns, and the two listing
  handlers as methods. `CollectDistinct` has the `forEach`/`Set.add` loop.

The catalog is a parameter of every operation. The route's literal array
(`backend/routes/places.js:5-197`) is just one value of it. A query
parameter is `Option<string>`. Following JavaScript truthiness, both an
absent parameter and the empty string count as not given.

## Model

| member | source | states |
|---|---|---|
| `JsStrings.ToLower` | backend/routes/places.js:216-222 | lower-casing keeps the length, maps each character through ASCII lower-casing, and leaves no capital letter |
| `JsStrings.ToLowerIdempotent` | backend/routes/places.js:222 | a law of the model's `toLowerCase`, not behaviour of the route (which lower-cases each string once): lower-casing an already lower-cased string changes nothing |
| `JsStrings.EqualIgnoringCaseLowers` | backend/routes/places.js:216 | two strings lower-case to the same string exactly when, position by position, they agree or one holds an ASCII capital and the other its small letter |
| `JsStrings.Includes` | backend/routes/places.js:224-227 | `hay.includes(needle)` holds exactly when some position of `hay` starts a copy of `needle` |
| `JsStrings.Less` | backend/routes/places.js:256 | in the order both listings sort by, `a` comes before `b` exactly when, at the first position where they differ, `a` holds the smaller character, or `a` is a proper prefix of `b` |
| `JsStrings.LessTransitive` | backend/routes/places.js:256 | the sort's string order is transitive |
| `JsStrings.LessTotal` | backend/routes/places.js:256 | any two different strings are ordered one way or the other |
| `JsStrings.LessAsymmetric` | backend/routes/places.js:256 | no two strings are each less than the other |
| `Sequences.Filter` | backend/routes/places.js:208-210 | `s.filter(keep)` is a subsequence of `s` holding every copy of each element that satisfies `keep` and no copy of any other |
| `Sequences.FilterUnique` | backend/routes/places.js:208-210 | the only sequence with that property is `s.filter(keep)`: the result is fixed by the predicate and the original order |
| `Sequences.SubsequenceTransitive` | backend/routes/places.js:204-228 | filtering step by step keeps the result a subsequence of the catalog |
| `JsSort.Sort` | backend/routes/places.js:256 | sorting returns an ascending permutation of its input |
| `JsSort.SortedUnique` | backend/routes/places.js:268 | two strictly ascending lists with the same elements are equal, so the sorted listing is determined |
| `PlacesRoute.FilterSeason` | backend/routes/places.js:207-211 | with a season other than "all", keeps exactly the places whose season is that season or "all", in order; absent, empty or "all" returns the list unchanged |
| `PlacesRoute.FilterState` | backend/routes/places.js:214-218 | with a state given, keeps exactly the places whose lower-cased state equals the lower-cased query state, in order; absent or empty returns the list unchanged |
| `PlacesRoute.MatchesSearch` | backend/routes/places.js:223-228 | for a non-empty term, a place matches exactly when its lower-cased name, description, state or district includes the term |
| `PlacesRoute.MatchesRegion` | backend/routes/places.js:233-236 | for a non-empty term, a place matches exactly when its lower-cased state or district includes the term; every region match is also a search match |
| `PlacesRoute.Narrowed` | backend/routes/places.js:204-228 | before any fallback, the result is exactly the catalog places that meet every given criterion, in catalog order |
| `PlacesRoute.QueryIsSubsequence` | backend/routes/places.js:204-237 | on both the normal and the fallback path, the result is a subsequence of the catalog |
| `PlacesRoute.QueryWithoutCriteria` | backend/routes/places.js:204-242 | with no season (or "all"), no state and no search term, the whole catalog is returned |
| `PlacesRoute.QueryPlaces` | backend/routes/places.js:200-242 | the result in every case: with no search term, or when some catalog place meets every criterion, exactly the places meeting them all; with a search term and no place meeting every criterion, exactly the catalog places whose state or district contains the lower-cased term, season and state ignored |
| `PlacesRoute.QueryResultsContainTerm` | backend/routes/places.js:221-236 | with a search term, every returned place has the lower-cased term in its lower-cased name, description, state or district, on both paths |
| `PlacesRoute.QueryStateIgnoresCase` | backend/routes/places.js:214-218 | two state values that differ only in ASCII letter case give identical query results |
| `PlacesRoute.QueryMeghalayaIgnoresCase` | backend/routes/places.js:216 | `state=meghalaya` and `state=Meghalaya` give identical query results |
| `PlacesRoute.FallbackIgnoresSeason` | backend/routes/places.js:232-237 | a winter search for "Khasi" over a monsoon place in the Khasi Hills and an unrelated winter place returns the monsoon place, which the season filter had removed |
| `PlacesRoute.CollectDistinct` | backend/routes/places.js:252-253 | the `Set.add` loop yields a duplicate-free list whose elements are exactly the field values occurring in the catalog |
| `PlacesRoute.SortedDistinct` | backend/routes/places.js:252-256 | `Array.from(set).sort()` is strictly ascending and holds exactly the field values occurring in the catalog |
| `PlacesRoute.Seasons` | backend/routes/places.js:250-257 | the seasons listing is strictly ascending (sorted, no duplicates) and holds a string exactly when some place has that season |
| `PlacesRoute.States` | backend/routes/places.js:262-269 | the states listing is strictly ascending (sorted, no duplicates) and holds a string exactly when some place has that state |

## Left out

- JsStrings.ToLower: lower-cases ASCII letters only. JavaScript's `toLowerCase` also maps non-ASCII letters, and for some characters changes the length. The catalog's strings are ASCII. Query strings are user input, so a non-ASCII query can match differently: JavaScript lower-cases U+212A KELVIN SIGN to `k`, so `search=\u212Ahasi` finds the Khasi Hills places in the route and nothing in the model.
- JsStrings.Less: compares strings element by element on Dafny characters (Unicode scalar values). JavaScript compares UTF-16 code units. The two orders differ only between characters above U+FFFF and characters from U+E000 to U+FFFF.
- JsSort.Sort: the engine's sort algorithm is not visible. It is modelled as an insertion sort. `SortedUnique` shows that, for the duplicate-free arrays the route sorts, the result does not depend on the algorithm.
- Express plumbing is I/O and framework glue: the router, reading `req.query`, `res.json`, the HTTP 500 handler (`places.js:243-246`) and the `console.log` of the result count (`places.js:239`).
- Query parameters that are not strings are not modelled. A repeated parameter arrives as an array. A repeated `season` never reaches `toLowerCase`: it differs from `'all'` and equals no place's season, so the season step keeps only the places whose season is `"all"` (`places.js:207-210`); with a search term that none of them matches, the fallback (`places.js:232-236`) still returns region matches of any season. A repeated `state` or `search` reaches `toLowerCase`, which throws, and the route answers with the 500 handler.
- Place fields are always strings. A missing (`undefined`) field is not modelled. The search's `place.name && …` guards are modelled as "the field is non-empty".
- The literal catalog contents (`places.js:5-197`) are not modelled. The catalog is an input. Latitude, longitude and image are carried along as opaque values.
- `backend/app.js` and `backend/server.js` are server bootstrapping.
- The frontend is left out: React components, fetch calls, geolocation and map widgets. This includes the haversine radius filter in `MapView.jsx`, which rests on floating-point trigonometry, and the "prepend `all`" step in `SeasonFilter.jsx`.
