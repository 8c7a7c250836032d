/**
 * The module-level `movies` array of movie-api/index.js and its five route
 * handlers. The two read handlers answer from the current table; POST, PUT
 * and DELETE change it: by `push`, by assignment at an index, and by
 * replacing the table with a filtered copy.
 */
module MovieApi {
  import opened Catalog

  class MovieStore {
    var movies: seq<Movie>

    /** Ids increase along the table and every record passed validation. */
    ghost predicate Valid()
      reads this
    {
      WellFormedTable(movies)
    }

    /** The table starts with the three seed records. */
    constructor ()
      ensures Valid()
      ensures movies == SeedMovies()
    {
      movies := SeedMovies();
      SeedIsWellFormed();
    }

    /** GET /movies. */
    method ListMovies(q: Query) returns (r: Reply<seq<Movie>>)
      ensures r.Fail? <==> q.year == Some(NaN)
      ensures r.Ok? ==> r.value == Sequences.Filter(movies, Selector(q))
      ensures r.Ok? ==> IsSubsequenceOfTable(r.value) && forall m :: m in r.value <==> m in movies && Matches(q, m)
    {
      r := List(movies, q);
      ListSelects(movies, q);
      if r.Ok? {
        ListIsMatchingSubsequence(movies, q);
      }
    }

    /** The records of `s` appear in the table in the same order. */
    ghost predicate IsSubsequenceOfTable(s: seq<Movie>)
      reads this
    {
      Sequences.IsSubsequence(s, movies)
    }

    /** GET /movies/:id. */
    method GetMovie(id: Numeric) returns (r: Reply<Movie>)
      ensures r == Get(movies, id)
      ensures r.Ok? ==> r.value in movies && SameId(r.value, id)
      ensures r.Fail? <==> FindIndex(movies, id) == -1
    {
      r := Get(movies, id);
      FindAgreesWithFindIndex(movies, id);
    }

    /**
     * POST /movies: validate, then append the record under the next id
     * (1 for an empty table, else the last id plus one). Every rejection
     * leaves the table as it was.
     */
    method Create(b: Body, currentYear: int) returns (r: Reply<Movie>)
      requires Valid()
      modifies this
      ensures Valid()
      ensures Validate(b, currentYear).Reject? ==>
                r == Fail(Validate(b, currentYear).error) && movies == old(movies)
      ensures Validate(b, currentYear).Accept? ==>
                var m := Movie(NextId(old(movies)), b.title, b.director, Validate(b, currentYear).year);
                r == Created(m) && movies == old(movies) + [m]
      ensures r.Created? ==> forall i :: 0 <= i < |old(movies)| ==> old(movies)[i].id < r.value.id
    {
      var checked := Validate(b, currentYear);
      if checked.Reject? {
        return Fail(checked.error);
      }
      var nextId;
      if |movies| == 0 {
        nextId := 1;
      } else {
        nextId := movies[|movies| - 1].id + 1;
      }
      var newMovie := Movie(nextId, b.title, b.director, checked.year);
      CreateKeepsWellFormed(movies, b, currentYear);
      movies := movies + [newMovie];
      r := Created(newMovie);
    }

    /**
     * PUT /movies/:id: 404 before any validation when no record has the id;
     * otherwise validate, then replace the record at that index, keeping its
     * id and position. No other record changes.
     */
    method Update(id: Numeric, b: Body, currentYear: int) returns (r: Reply<Movie>)
      requires Valid()
      modifies this
      ensures Valid()
      ensures |movies| == |old(movies)|
      ensures FindIndex(old(movies), id) == -1 ==> r == Fail(MovieNotFound) && movies == old(movies)
      ensures FindIndex(old(movies), id) >= 0 && Validate(b, currentYear).Reject? ==>
                r == Fail(Validate(b, currentYear).error) && movies == old(movies)
      ensures FindIndex(old(movies), id) >= 0 && Validate(b, currentYear).Accept? ==>
                var i := FindIndex(old(movies), id);
                var m := Movie(old(movies)[i].id, b.title, b.director, Validate(b, currentYear).year);
                r == Ok(m) && movies == old(movies)[i := m]
      ensures forall k :: 0 <= k < |movies| && movies[k] != old(movies)[k] ==> k == FindIndex(old(movies), id)
    {
      var index := FindIndex(movies, id);
      if index == -1 {
        return Fail(MovieNotFound);
      }
      var checked := Validate(b, currentYear);
      if checked.Reject? {
        return Fail(checked.error);
      }
      var updated := Movie(id.value, b.title, b.director, checked.year);
      UpdateKeepsWellFormed(movies, index, updated);
      movies := movies[index := updated];
      r := Ok(movies[index]);
    }

    /**
     * DELETE /movies/:id: keep only the records whose id differs; 404 when
     * the length did not change, 204 otherwise.
     */
    method Delete(id: Numeric) returns (r: Reply<()>)
      requires Valid()
      modifies this
      ensures Valid()
      ensures movies == Without(old(movies), id)
      ensures r == DeleteReply(old(movies), id)
      ensures r == Fail(MovieNotFound) <==> FindIndex(old(movies), id) == -1
      ensures r == NoContent <==> FindIndex(old(movies), id) >= 0
      ensures FindIndex(old(movies), id) == -1 ==> movies == old(movies)
      ensures FindIndex(old(movies), id) >= 0 ==>
                var i := FindIndex(old(movies), id);
                movies == old(movies)[..i] + old(movies)[i + 1..]
    {
      var originalLength := |movies|;
      WithoutKeepsWellFormed(movies, id);
      if FindIndex(movies, id) >= 0 {
        WithoutRemovesOne(movies, id);
      }
      movies := Without(movies, id);
      if |movies| == originalLength {
        return Fail(MovieNotFound);
      }
      r := NoContent;
    }
  }

  /**
   * With three seed records, POST of Dune by Denis Villeneuve (2021) gives
   * 201 and the record with id 4.
   */
  method CreateOnSeedTable(currentYear: int) returns (r: Reply<Movie>)
    requires currentYear >= 2020
    ensures r == Created(Movie(4, "Dune", "Denis Villeneuve", 2021))
    ensures r.Status() == 201
  {
    var store := new MovieStore();
    r := store.Create(Body("Dune", "Denis Villeneuve", Some(Num(2021))), currentYear);
  }

  /** PUT /movies/99 on the seed table gives 404 even with a valid body. */
  method UpdateMissingOnSeedTable(currentYear: int) returns (r: Reply<Movie>)
    requires currentYear >= 2020
    ensures r == Fail(MovieNotFound) && r.Status() == 404
  {
    var store := new MovieStore();
    r := store.Update(Num(99), Body("Dune", "Denis Villeneuve", Some(Num(2021))), currentYear);
  }

  /** Deleting movie 3 from the seed table and then creating a movie hands out id 3 again. */
  method DeleteThenCreateOnSeedTable(currentYear: int) returns (deleted: Reply<()>, created: Reply<Movie>)
    requires currentYear >= 2020
    ensures deleted == NoContent && deleted.Status() == 204
    ensures created == Created(Movie(3, "Dune", "Denis Villeneuve", 2021))
  {
    var store := new MovieStore();
    ghost var seed := SeedMovies();
    assert SameId(seed[2], Num(3));
    SeedIsWellFormed();
    DeleteLastReusesId(seed);
    deleted := store.Delete(Num(3));
    created := store.Create(Body("Dune", "Denis Villeneuve", Some(Num(2021))), currentYear);
  }

  /** Deleting movie 2 from the seed table twice gives 204 and then 404. */
  method DeleteTwiceOnSeedTable() returns (first: Reply<()>, again: Reply<()>)
    ensures first == NoContent
    ensures again == Fail(MovieNotFound) && again.Status() == 404
  {
    var store := new MovieStore();
    ghost var seed := SeedMovies();
    assert SameId(seed[1], Num(2));
    first := store.Delete(Num(2));
    DeleteTwiceNotFound(seed, Num(2));
    again := store.Delete(Num(2));
  }

  /** Validation stops at the first failure: a body missing its title and with a non-numeric year is reported as missing fields. */
  method FirstValidationErrorWins(currentYear: int) returns (r: Reply<Movie>)
    ensures r == Fail(FieldsRequired) && r.Status() == 400
  {
    var store := new MovieStore();
    r := store.Create(Body("", "Denis Villeneuve", Some(NaN)), currentYear);
  }
}
