/**
 * The movie table of movie-api/index.js without its HTTP layer: the record
 * type, the shapes of the request values the handlers read, the replies they
 * send (each with its status code), and the pure parts of the handlers —
 * listing with filters, lookup by id, payload validation, id assignment and
 * removal by id — with the properties they guarantee.
 */
module Catalog {
  import opened Text
  import opened Sequences

  datatype Option<T> = None | Some(value: T)

  /**
   * What JavaScript's `Number(v)` gives for a request value: an integral
   * number, or NaN. Non-integral numbers are not modelled.
   */
  datatype Numeric = NaN | Num(value: int)

  /** One row of the in-memory table. */
  datatype Movie = Movie(id: int, title: string, director: string, year: int)

  /**
   * A POST or PUT body. A title or director that is absent, empty or
   * otherwise falsy is the empty string; `year` is None when the field is
   * undefined, and otherwise the result of `Number(year)`.
   */
  datatype Body = Body(title: string, director: string, year: Option<Numeric>)

  /**
   * The query string of GET /movies. An absent or empty filter is the empty
   * string (for `year`: None); a present year filter is the result of `Number`.
   */
  datatype Query = Query(title: string, director: string, year: Option<Numeric>)

  /** The earliest year a movie may have. */
  const MinYear := 1888

  /** The error replies, one per message the handlers send. */
  datatype Error =
    | FieldsRequired            // title, director and year are required
    | YearNotNumber             // year must be a number
    | YearOutOfRange(latest: int) // year must be between 1888 and `latest`
    | MovieNotFound             // Movie not found
    | YearFilterNotNumber       // year filter must be a number
  {
    function Status(): int {
      if MovieNotFound? then 404 else 400
    }
  }

  /** A handler's reply: a JSON value with 200 or 201, an empty 204, or an error. */
  datatype Reply<T> = Ok(value: T) | Created(value: T) | NoContent | Fail(error: Error)
  {
    function Status(): int {
      match this
      case Ok(_) => 200
      case Created(_) => 201
      case NoContent => 204
      case Fail(e) => e.Status()
    }
  }

  /** The three records the table starts with. */
  function SeedMovies(): seq<Movie> {
    [ Movie(1, "Inception", "Christopher Nolan", 2010),
      Movie(2, "The Matrix", "The Wachowskis", 1999),
      Movie(3, "Parasite", "Bong Joon-ho", 2019) ]
  }

  /** JavaScript's `m.id === id`; NaN equals nothing. */
  predicate SameId(m: Movie, id: Numeric) {
    id.Num? && m.id == id.value
  }

  // ---------------------------------------------------------------------
  // Table invariant

  /** Ids grow strictly along the table (so no two records share an id). */
  ghost predicate IdsIncreasing(ms: seq<Movie>) {
    forall i, j :: 0 <= i < j < |ms| ==> ms[i].id < ms[j].id
  }

  /** A record as the validation lets it into the table: positive id, non-empty names, year not before 1888. */
  ghost predicate WellFormedMovie(m: Movie) {
    m.id >= 1 && m.title != "" && m.director != "" && m.year >= MinYear
  }

  /** The invariant every reachable table satisfies. */
  ghost predicate WellFormedTable(ms: seq<Movie>) {
    IdsIncreasing(ms) && forall i :: 0 <= i < |ms| ==> WellFormedMovie(ms[i])
  }

  lemma SeedIsWellFormed()
    ensures WellFormedTable(SeedMovies())
  {
  }

  /** With increasing ids, a record is the only one carrying its id. */
  lemma IdsUnique(ms: seq<Movie>, i: int, j: int)
    requires IdsIncreasing(ms)
    requires 0 <= i < |ms| && 0 <= j < |ms|
    requires ms[i].id == ms[j].id
    ensures i == j
  {
  }

  // ---------------------------------------------------------------------
  // GET /movies/:id  and the lookup PUT uses

  /** `movies.findIndex(m => m.id === id)`: the first matching position, or -1. */
  function FindIndex(ms: seq<Movie>, id: Numeric): (r: int)
    ensures -1 <= r < |ms|
    ensures r == -1 <==> forall k :: 0 <= k < |ms| ==> !SameId(ms[k], id)
    ensures 0 <= r ==> SameId(ms[r], id) && forall k :: 0 <= k < r ==> !SameId(ms[k], id)
  {
    if ms == [] then -1
    else if SameId(ms[0], id) then 0
    else
      var r := FindIndex(ms[1..], id);
      if r == -1 then -1 else r + 1
  }

  /** `movies.find(m => m.id === id)`: the first matching record, if any. */
  function Find(ms: seq<Movie>, id: Numeric): (r: Option<Movie>)
    ensures r.Some? ==> r.value in ms && SameId(r.value, id)
    ensures r.None? <==> forall m :: m in ms ==> !SameId(m, id)
  {
    if ms == [] then None
    else if SameId(ms[0], id) then Some(ms[0])
    else Find(ms[1..], id)
  }

  /** `find` and `findIndex` agree: `find` yields the record at the index `findIndex` reports. */
  lemma {:induction false} FindAgreesWithFindIndex(ms: seq<Movie>, id: Numeric)
    ensures Find(ms, id) == if FindIndex(ms, id) == -1 then None else Some(ms[FindIndex(ms, id)])
  {
    if ms != [] && !SameId(ms[0], id) {
      FindAgreesWithFindIndex(ms[1..], id);
    }
  }

  /** GET /movies/:id: the first record with that id (200), or 404. */
  function Get(ms: seq<Movie>, id: Numeric): (r: Reply<Movie>)
    ensures r.Ok? || r == Fail(MovieNotFound)
    ensures r.Fail? <==> forall k :: 0 <= k < |ms| ==> !SameId(ms[k], id)
    ensures r.Ok? ==> exists i :: 0 <= i < |ms| && ms[i] == r.value && SameId(ms[i], id)
                                  && forall k :: 0 <= k < i ==> !SameId(ms[k], id)
  {
    FindAgreesWithFindIndex(ms, id);
    match Find(ms, id)
    case None => Fail(MovieNotFound)
    case Some(m) => Ok(m)
  }

  // ---------------------------------------------------------------------
  // GET /movies with filters

  /** `m.title.toLowerCase().includes(title.toLowerCase())`. */
  function TitleFilter(title: string): Movie -> bool {
    (m: Movie) => ContainsIgnoringCase(m.title, title)
  }

  /** `m.director.toLowerCase().includes(director.toLowerCase())`. */
  function DirectorFilter(director: string): Movie -> bool {
    (m: Movie) => ContainsIgnoringCase(m.director, director)
  }

  /** `m.year === yearNumber`. */
  function YearFilter(year: int): Movie -> bool {
    (m: Movie) => m.year == year
  }

  /** GET /movies: title, then director, then year filter, each skipped when not given. */
  function List(ms: seq<Movie>, q: Query): (r: Reply<seq<Movie>>)
    ensures r.Ok? || r == Fail(YearFilterNotNumber)
  {
    var byTitle := if q.title != "" then Filter(ms, TitleFilter(q.title)) else ms;
    var byDirector := if q.director != "" then Filter(byTitle, DirectorFilter(q.director)) else byTitle;
    match q.year
    case None => Ok(byDirector)
    case Some(NaN) => Fail(YearFilterNotNumber)
    case Some(Num(y)) => Ok(Filter(byDirector, YearFilter(y)))
  }

  /**
   * A record matches a query when it satisfies every filter given: the
   * lower-cased query text occurs in the lower-cased title (director), and
   * the year is the requested number.
   */
  ghost predicate Matches(q: Query, m: Movie) {
    && (q.title != "" ==> Occurs(ToLower(q.title), ToLower(m.title)))
    && (q.director != "" ==> Occurs(ToLower(q.director), ToLower(m.director)))
    && (q.year.Some? && q.year.value.Num? ==> m.year == q.year.value.value)
  }

  /** `Matches(q, _)` as a filter predicate. */
  ghost function Selector(q: Query): Movie -> bool {
    (m: Movie) => Matches(q, m)
  }

  /** The title conjunct of `Matches` as a filter predicate. */
  ghost function TitleCondition(q: Query): Movie -> bool {
    (m: Movie) => q.title != "" ==> Occurs(ToLower(q.title), ToLower(m.title))
  }

  /** The director conjunct of `Matches` as a filter predicate. */
  ghost function DirectorCondition(q: Query): Movie -> bool {
    (m: Movie) => q.director != "" ==> Occurs(ToLower(q.director), ToLower(m.director))
  }

  /** The year conjunct of `Matches` as a filter predicate. */
  ghost function YearCondition(q: Query): Movie -> bool {
    (m: Movie) => q.year.Some? && q.year.value.Num? ==> m.year == q.year.value.value
  }

  /** `Matches` is the conjunction of the three filter conditions. */
  lemma SelectorIsConjunction(q: Query)
    ensures forall m :: Selector(q)(m) == (TitleCondition(q)(m) && DirectorCondition(q)(m) && YearCondition(q)(m))
  {
  }

  /** The title stage of the handler filters by the title conjunct. */
  lemma TitleStage(ms: seq<Movie>, q: Query)
    ensures (if q.title != "" then Filter(ms, TitleFilter(q.title)) else ms) == Filter(ms, TitleCondition(q))
  {
    if q.title != "" {
      FilterAgree(ms, TitleFilter(q.title), TitleCondition(q));
    } else {
      FilterKeepsLength(ms, TitleCondition(q));
    }
  }

  /** The director stage of the handler filters by the director conjunct. */
  lemma DirectorStage(ms: seq<Movie>, q: Query)
    ensures (if q.director != "" then Filter(ms, DirectorFilter(q.director)) else ms) == Filter(ms, DirectorCondition(q))
  {
    if q.director != "" {
      FilterAgree(ms, DirectorFilter(q.director), DirectorCondition(q));
    } else {
      FilterKeepsLength(ms, DirectorCondition(q));
    }
  }

  /** The year stage of the handler filters by the year conjunct. */
  lemma YearStage(ms: seq<Movie>, q: Query)
    ensures (if q.year.Some? && q.year.value.Num? then Filter(ms, YearFilter(q.year.value.value)) else ms)
            == Filter(ms, YearCondition(q))
  {
    if q.year.Some? && q.year.value.Num? {
      FilterAgree(ms, YearFilter(q.year.value.value), YearCondition(q));
    } else {
      FilterKeepsLength(ms, YearCondition(q));
    }
  }

  /**
   * The list reply is 400 exactly when a year filter is given and is not a
   * number; otherwise it is the table filtered by `Matches` in one pass.
   */
  lemma ListSelects(ms: seq<Movie>, q: Query)
    ensures List(ms, q).Fail? <==> q.year == Some(NaN)
    ensures List(ms, q).Ok? ==> List(ms, q).value == Filter(ms, Selector(q))
  {
    var byTitle := if q.title != "" then Filter(ms, TitleFilter(q.title)) else ms;
    TitleStage(ms, q);
    var byDirector := if q.director != "" then Filter(byTitle, DirectorFilter(q.director)) else byTitle;
    DirectorStage(byTitle, q);
    var td: Movie -> bool := (m: Movie) => TitleCondition(q)(m) && DirectorCondition(q)(m);
    FilterFuse(ms, TitleCondition(q), DirectorCondition(q), td);
    YearStage(byDirector, q);
    SelectorIsConjunction(q);
    FilterFuse(ms, td, YearCondition(q), Selector(q));
  }

  /**
   * The list is an order-preserving subsequence of the table, and a record
   * is in it exactly when it matches every given filter.
   */
  lemma ListIsMatchingSubsequence(ms: seq<Movie>, q: Query)
    requires q.year != Some(NaN)
    ensures List(ms, q).Ok?
    ensures IsSubsequence(List(ms, q).value, ms)
    ensures forall m :: m in List(ms, q).value <==> m in ms && Matches(q, m)
  {
    ListSelects(ms, q);
    FilterIsSubsequence(ms, Selector(q));
  }

  /** A title query matches whatever its case: "MaTrIx" selects The Matrix. */
  lemma TitleQueryIgnoresCaseOnSeed()
    ensures Matches(Query("MaTrIx", "", None), SeedMovies()[1])
  {
    MixedCaseQueryFound();
  }

  /** "MaTrIx" does not select Inception: "inception" has no 'm'. */
  lemma TitleQueryRejectsOnSeed()
    ensures !Matches(Query("MaTrIx", "", None), SeedMovies()[0])
  {
    MixedCaseQueryAbsent();
  }

  /** With no filter given, the whole table is returned as it is. */
  lemma ListWithoutFilters(ms: seq<Movie>)
    ensures List(ms, Query("", "", None)) == Ok(ms)
  {
    ListSelects(ms, Query("", "", None));
    FilterKeepsLength(ms, Selector(Query("", "", None)));
  }

  /**
   * Filtering ignores the case of the query: lower-casing the title and
   * director filters first gives the same reply.
   */
  lemma ListIgnoresQueryCase(ms: seq<Movie>, q: Query)
    ensures List(ms, Query(ToLower(q.title), ToLower(q.director), q.year)) == List(ms, q)
  {
    var q' := Query(ToLower(q.title), ToLower(q.director), q.year);
    ListSelects(ms, q);
    ListSelects(ms, q');
    ToLowerIdempotent(q.title);
    ToLowerIdempotent(q.director);
    assert (q'.title != "") == (q.title != "") && (q'.director != "") == (q.director != "");
    FilterAgree(ms, Selector(q'), Selector(q));
  }

  // ---------------------------------------------------------------------
  // Validation shared by POST and PUT

  /** The outcome of validating a body: the year as a number, or the first error found. */
  datatype Checked = Accept(year: int) | Reject(error: Error)

  /** Step 1: title and director are truthy and year is not undefined. */
  predicate HasRequiredFields(b: Body) {
    b.title != "" && b.director != "" && b.year.Some?
  }

  /** Step 3: 1888 <= year <= currentYear + 1. */
  predicate InYearRange(year: int, currentYear: int) {
    MinYear <= year <= currentYear + 1
  }

  /**
   * The checks run in order and the first failure is the reply: missing
   * fields, then a year that is not a number, then a year out of range.
   */
  function Validate(b: Body, currentYear: int): (r: Checked)
    ensures r.Accept? <==> HasRequiredFields(b) && b.year.value.Num? && InYearRange(b.year.value.value, currentYear)
    ensures r.Accept? ==> b.year == Some(Num(r.year))
    ensures !HasRequiredFields(b) ==> r == Reject(FieldsRequired)
    ensures HasRequiredFields(b) && b.year.value.NaN? ==> r == Reject(YearNotNumber)
    ensures HasRequiredFields(b) && b.year.value.Num? && !InYearRange(b.year.value.value, currentYear)
            ==> r == Reject(YearOutOfRange(currentYear + 1))
    ensures r.Reject? ==> r.error.Status() == 400
  {
    if b.title == "" || b.director == "" || b.year.None? then Reject(FieldsRequired)
    else if b.year.value.NaN? then Reject(YearNotNumber)
    else
      var yearNumber := b.year.value.value;
      if yearNumber < MinYear || yearNumber > currentYear + 1 then Reject(YearOutOfRange(currentYear + 1))
      else Accept(yearNumber)
  }

  /** A body that passes validation yields a well-formed record under any positive id. */
  lemma AcceptedIsWellFormed(b: Body, currentYear: int, id: int)
    requires Validate(b, currentYear).Accept?
    requires id >= 1
    ensures WellFormedMovie(Movie(id, b.title, b.director, Validate(b, currentYear).year))
  {
  }

  // ---------------------------------------------------------------------
  // POST /movies: id assignment

  /**
   * The id a new record gets: 1 for an empty table, otherwise the last
   * record's id plus one. While ids increase it is larger than every id in
   * the table, so it is fresh, and it is positive for a well-formed table.
   */
  function NextId(ms: seq<Movie>): (r: int)
    ensures IdsIncreasing(ms) ==> forall i :: 0 <= i < |ms| ==> ms[i].id < r
    ensures WellFormedTable(ms) ==> r >= 1
  {
    if |ms| == 0 then 1 else ms[|ms| - 1].id + 1
  }

  /** The largest id in a non-empty table. */
  function MaxId(ms: seq<Movie>): (r: int)
    requires ms != []
    ensures exists i :: 0 <= i < |ms| && ms[i].id == r
    ensures forall i :: 0 <= i < |ms| ==> ms[i].id <= r
  {
    if |ms| == 1 then ms[0].id
    else
      var rest := MaxId(ms[1..]);
      assert forall i :: 1 <= i < |ms| ==> ms[i] == ms[1..][i - 1];
      if ms[0].id >= rest then ms[0].id else rest
  }

  /** While ids increase, "last id + 1" is "largest id + 1". */
  lemma NextIdIsMaxPlusOne(ms: seq<Movie>)
    requires IdsIncreasing(ms) && ms != []
    ensures NextId(ms) == MaxId(ms) + 1
  {
    var i :| 0 <= i < |ms| && ms[i].id == MaxId(ms);
    if i < |ms| - 1 {
      assert ms[i].id < ms[|ms| - 1].id;
    }
  }

  /** Appending a validated body under the next id keeps the table invariant. */
  lemma CreateKeepsWellFormed(ms: seq<Movie>, b: Body, currentYear: int)
    requires WellFormedTable(ms)
    requires Validate(b, currentYear).Accept?
    ensures WellFormedTable(ms + [Movie(NextId(ms), b.title, b.director, Validate(b, currentYear).year)])
  {
    var m := Movie(NextId(ms), b.title, b.director, Validate(b, currentYear).year);
    var ms' := ms + [m];
    assert NextId(ms) >= 1;
    forall i, j | 0 <= i < j < |ms'| ensures ms'[i].id < ms'[j].id {
      if j == |ms| {
        assert ms'[i] == ms[i];
      }
    }
  }

  /** After a create, looking the new id up finds exactly the new record. */
  lemma GetAfterCreate(ms: seq<Movie>, m: Movie)
    requires IdsIncreasing(ms)
    requires m.id == NextId(ms)
    ensures Get(ms + [m], Num(m.id)) == Ok(m)
  {
    var ms' := ms + [m];
    assert forall k :: 0 <= k < |ms| ==> !SameId(ms'[k], Num(m.id));
    assert SameId(ms'[|ms|], Num(m.id));
    FindAgreesWithFindIndex(ms', Num(m.id));
  }

  // ---------------------------------------------------------------------
  // PUT /movies/:id

  /** Replacing the record at a matching index by one with the same id keeps the table invariant. */
  lemma UpdateKeepsWellFormed(ms: seq<Movie>, i: int, m: Movie)
    requires WellFormedTable(ms)
    requires 0 <= i < |ms| && m.id == ms[i].id
    requires WellFormedMovie(m)
    ensures WellFormedTable(ms[i := m])
  {
  }

  /** After an update, looking the id up finds the replacement. */
  lemma GetAfterUpdate(ms: seq<Movie>, id: Numeric, m: Movie)
    requires FindIndex(ms, id) >= 0
    requires SameId(m, id)
    ensures Get(ms[FindIndex(ms, id) := m], id) == Ok(m)
  {
    var i := FindIndex(ms, id);
    var ms' := ms[i := m];
    assert forall k :: 0 <= k < i ==> !SameId(ms'[k], id);
    assert SameId(ms'[i], id);
    var j := FindIndex(ms', id);
    assert j == i;
    FindAgreesWithFindIndex(ms', id);
  }

  // ---------------------------------------------------------------------
  // DELETE /movies/:id

  /** The predicate DELETE filters by: `m => m.id !== id`. */
  function Keep(id: Numeric): Movie -> bool {
    (m: Movie) => !SameId(m, id)
  }

  /** `movies.filter(m => m.id !== id)`. */
  function Without(ms: seq<Movie>, id: Numeric): (r: seq<Movie>)
    ensures forall m :: m in r <==> m in ms && !SameId(m, id)
    ensures |r| == |ms| <==> forall k :: 0 <= k < |ms| ==> !SameId(ms[k], id)
    ensures |r| == |ms| ==> r == ms
  {
    FilterKeepsLength(ms, Keep(id));
    Filter(ms, Keep(id))
  }

  /**
   * DELETE's reply: 404 when filtering removed nothing (the length did not
   * change), 204 otherwise. That is 404 exactly when no record had the id.
   */
  function DeleteReply(ms: seq<Movie>, id: Numeric): (r: Reply<()>)
    ensures r == Fail(MovieNotFound) <==> FindIndex(ms, id) == -1
    ensures r == NoContent <==> FindIndex(ms, id) >= 0
  {
    if |Without(ms, id)| == |ms| then Fail(MovieNotFound) else NoContent
  }

  /** Deleting the same id a second time removes nothing and reports 404. */
  lemma DeleteTwiceNotFound(ms: seq<Movie>, id: Numeric)
    ensures Without(Without(ms, id), id) == Without(ms, id)
    ensures DeleteReply(Without(ms, id), id) == Fail(MovieNotFound)
  {
    var once := Without(ms, id);
    assert forall k :: 0 <= k < |once| ==> once[k] in once;
    FilterKeepsLength(once, Keep(id));
  }

  /** Delete keeps the surviving records in their original order. */
  lemma WithoutKeepsOrder(ms: seq<Movie>, id: Numeric)
    ensures IsSubsequence(Without(ms, id), ms)
  {
    FilterIsSubsequence(ms, Keep(id));
  }

  /** A subsequence of a table with increasing ids has increasing ids. */
  lemma {:induction false} SubsequenceKeepsIncreasing(a: seq<Movie>, b: seq<Movie>)
    requires IsSubsequence(a, b) && IdsIncreasing(b)
    ensures IdsIncreasing(a)
    ensures forall k :: 0 <= k < |a| ==> a[k] in b
    decreases |b|
  {
    if a != [] {
      if a[0] == b[0] && IsSubsequence(a[1..], b[1..]) {
        SubsequenceKeepsIncreasing(a[1..], b[1..]);
        forall k | 1 <= k < |a| ensures a[0].id < a[k].id {
          assert a[1..][k - 1] in b[1..];
        }
        assert forall k :: 1 <= k < |a| ==> a[k] == a[1..][k - 1];
      } else {
        SubsequenceKeepsIncreasing(a, b[1..]);
      }
    }
  }

  /** Delete keeps the table invariant. */
  lemma WithoutKeepsWellFormed(ms: seq<Movie>, id: Numeric)
    requires WellFormedTable(ms)
    ensures WellFormedTable(Without(ms, id))
  {
    WithoutKeepsOrder(ms, id);
    SubsequenceKeepsIncreasing(Without(ms, id), ms);
  }

  /** With increasing ids, delete removes exactly the one record `findIndex` finds. */
  lemma WithoutRemovesOne(ms: seq<Movie>, id: Numeric)
    requires IdsIncreasing(ms)
    requires FindIndex(ms, id) >= 0
    ensures Without(ms, id) == ms[..FindIndex(ms, id)] + ms[FindIndex(ms, id) + 1..]
  {
    var i := FindIndex(ms, id);
    forall k | 0 <= k < |ms| && k != i ensures Keep(id)(ms[k]) {
      if SameId(ms[k], id) {
        IdsUnique(ms, i, k);
      }
    }
    FilterDropsOne(ms, Keep(id), i);
  }

  /**
   * Deleting the last record gives its id back: the next create gets an id
   * no larger than the deleted one, and exactly the deleted one when the ids
   * before it were consecutive.
   */
  lemma DeleteLastReusesId(ms: seq<Movie>)
    requires WellFormedTable(ms) && ms != []
    ensures var last := ms[|ms| - 1].id;
      && NextId(Without(ms, Num(last))) <= last
      && ((if |ms| == 1 then last == 1 else ms[|ms| - 2].id == last - 1) ==> NextId(Without(ms, Num(last))) == last)
  {
    var n := |ms|;
    var last := ms[n - 1].id;
    assert SameId(ms[n - 1], Num(last));
    assert FindIndex(ms, Num(last)) == n - 1;
    WithoutRemovesOne(ms, Num(last));
    assert Without(ms, Num(last)) == ms[..n - 1];
    if n >= 2 {
      assert ms[n - 2].id < last;
    }
  }
}
