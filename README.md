# Movie catalog API — a Dafny model

`movie-api/index.js` is a small Express service. It keeps a movie table in memory:
a module-level array of `{id, title, director, year}` records that starts with three
films. Five route handlers read and change that table:

- `GET /movies` lists the records. Optional filters narrow the list: a case-insensitive
  substring match on title and on director, and an exact match on year.
- `GET /movies/:id` returns the first record with that id.
- `POST /movies` validates the body, gives the record the next id and appends it.
- `PUT /movies/:id` replaces the record with that id, keeping its id and its position.
- `DELETE /movies/:id` removes every record with that id.

This project models those five handlers without the HTTP layer. Each handler returns a
`Reply`. A reply is a value with 200 (`Ok`) or 201 (`Created`), an empty 204 (`NoContent`),
or an error (`Fail`) with 400 or 404. The project has four modules:

- `Text` (text.dfy): ASCII `toLowerCase` and `includes`. `includes` is proved equal to a
  declarative "occurs at some position".
- `Sequences` (sequences.dfy): `Array.prototype.filter` as a function on sequences.
  Lemmas show that it keeps exactly the accepted elements, in their order, and say when
  it removes nothing or exactly one element.
- `Catalog` (catalog.dfy): the record and request types, and the pure parts of the
  handlers. These are listing, `find`/`findIndex`, validation, id assignment and removal
  by id. It also holds the table invariant "ids strictly increase and every record is
  well formed", with lemmas that every mutation keeps it.
- `MovieApi` (store.dfy): the class `MovieStore`. It owns the table as a `seq<Movie>`
  field, as the source's `let movies` does. Its methods are the handlers. `Create`
  appends, `Update` assigns at an index and `Delete` replaces the table with a filtered
  copy. Each has a `modifies` clause and says what the new table is. A few client methods
  play the worked examples on the seed table.

Request values are modelled as follows. A title, director or query filter that is absent
or falsy is the empty string. A body `year` that is `undefined` is `None`. Any other
year, year filter or path id is the result of `Number(...)`: `Num(n)` or `NaN`.
`Number.isNaN` is the `NaN` case. Since `NaN === x` is never true, a `NaN` id matches no
record. The current year is a parameter.

Some behaviours are worth stating because a reader might expect otherwise. The MongoDB rewrite in `weekly exercises5/` differs on the first three:

- Ids are the **last** record's id plus one (1 for an empty table). They are not the
  maximum plus one, which the rewrite takes by sorting on id
  (weekly exercises5/controllers/movieController.js:34-35). While ids increase (the invariant), the two coincide
  (`NextIdIsMaxPlusOne`). Ids are not "never reused": after the last record is deleted,
  the next create can hand out its id again (`DeleteLastReusesId`,
  `DeleteThenCreateOnSeedTable`).
- Validation stops at the first failing check and reports only that one. It does not
  collect every field error, as the Joi schema with `abortEarly: false` does
  (weekly exercises5/middlewares/validation.js:10).
- Title and director are only checked to be truthy. The length bounds 2–100 and 2–60
  of weekly exercises5/middlewares/validation.js:3-7 are not in this service.
- There is no authentication, token or credential logic in this service.

## Model

| member | source | states |
|---|---|---|
| `MovieApi.MovieStore.constructor` | movie-api/index.js:14-18 | the table starts as the three seed records and satisfies the table invariant |
| `Catalog.SeedIsWellFormed` | movie-api/index.js:14-18 | the seed records have strictly increasing positive ids and pass validation's field checks |
| `Catalog.IdsUnique` | movie-api/index.js:118 | with strictly increasing ids, two positions with the same id are the same position |
| `Text.LowerChar` | movie-api/index.js:49 | lower-casing changes only upper-case ASCII letters, and sends each to the lower-case letter at the same place in the alphabet; no upper-case letter is left |
| `Text.ToLower` | movie-api/index.js:49-51 | `toLowerCase` keeps the length and lower-cases every character in place |
| `Text.ToLowerIdempotent` | movie-api/index.js:49-51 | lower-casing twice is lower-casing once |
| `Text.Includes` | movie-api/index.js:51 | `includes(sub)` is true exactly when `sub` occurs at some position of the string (always, for the empty string) |
| `Text.OccursShift` | movie-api/index.js:51 | when `sub` is not a prefix of a non-empty string, it occurs in the string exactly when it occurs in its tail |
| `Text.ContainsIgnoringCase` | movie-api/index.js:49-52 | the title/director test holds exactly when the lower-cased query occurs in the lower-cased field |
| `Text.FoundIgnoringCase` | movie-api/index.js:49-52 | when the character-wise lower-cased query occurs at some position of the character-wise lower-cased text, the case-insensitive test holds |
| `Text.MixedCaseQueryFound` | movie-api/index.js:49-52 | the query "MaTrIx" is found in the title "The Matrix" |
| `Sequences.Filter` | movie-api/index.js:50-52 | `filter` keeps an element exactly when it is in the input and satisfies the predicate; it never grows the sequence |
| `Sequences.FilterIsSubsequence` | movie-api/index.js:45-73 | a filtered sequence is an order-preserving subsequence of its input |
| `Sequences.FilterKeepsLength` | movie-api/index.js:178-180 | filtering keeps the length exactly when every element passes, and then returns the input unchanged |
| `Sequences.FilterFuse` | movie-api/index.js:45-70 | two successive filters equal one filter by the conjunction of their predicates |
| `Sequences.FilterAgree` | movie-api/index.js:45-70 | predicates that agree on every element give the same filtered sequence |
| `Sequences.FilterDropsOne` | movie-api/index.js:178 | when only the element at `i` fails the predicate, filtering removes exactly that element |
| `Catalog.FindIndex` | movie-api/index.js:139 | `findIndex` gives -1 exactly when no record has the id, else the first position whose record has it |
| `Catalog.Find` | movie-api/index.js:80 | `find` gives a record of the table with that id, and nothing exactly when no record has the id |
| `Catalog.FindAgreesWithFindIndex` | movie-api/index.js:80 | `find` yields the record at the position `findIndex` reports, and nothing when it reports -1 |
| `Catalog.Get` | movie-api/index.js:78-88 | GET by id is 404 exactly when no record has the id, else 200 with the first record that has it |
| `MovieApi.MovieStore.GetMovie` | movie-api/index.js:78-88 | the handler answers from the current table: a record of the table with that id, or 404 exactly when `findIndex` finds none |
| `Catalog.List` | movie-api/index.js:40-74 | the list reply is either a list (200) or the 400 for a non-numeric year filter |
| `Catalog.ListSelects` | movie-api/index.js:45-73 | the list is 400 exactly when a year filter is given and is NaN; otherwise it is the table filtered in one pass by "matches every given filter" |
| `Catalog.ListIsMatchingSubsequence` | movie-api/index.js:45-73 | without a NaN year filter, the list is an order-preserving subsequence of the table, holding a record exactly when it matches every given filter |
| `Catalog.ListWithoutFilters` | movie-api/index.js:45-73 | with every filter absent or empty, the whole table is returned unchanged |
| `Catalog.TitleQueryIgnoresCaseOnSeed` | movie-api/index.js:48-52 | the title filter "MaTrIx" selects the seed record The Matrix |
| `Catalog.TitleQueryRejectsOnSeed` | movie-api/index.js:48-52 | the title filter "MaTrIx" does not select the seed record Inception |
| `Catalog.ListIgnoresQueryCase` | movie-api/index.js:48-61 | lower-casing the title and director queries first does not change the list |
| `MovieApi.MovieStore.ListMovies` | movie-api/index.js:40-74 | the handler gives 400 exactly for a NaN year filter, otherwise the current table filtered by "matches every given filter": an ordered subsequence holding exactly the matching records |
| `Catalog.Validate` | movie-api/index.js:94-111 | the checks run in order and the first failure is the reply: missing title, director or year, then a year that is not a number, then a year outside [1888, currentYear+1]; a body passes exactly when all three hold, with its numeric year |
| `Catalog.AcceptedIsWellFormed` | movie-api/index.js:95-126 | a validated body gives a well-formed record under any positive id |
| `MovieApi.FirstValidationErrorWins` | movie-api/index.js:95-103 | a body with no title and a NaN year is rejected for the missing field only (400) |
| `Catalog.NextId` | movie-api/index.js:114-119 | with increasing ids, the next id exceeds every id in the table, so it is fresh; for a well-formed table it is positive |
| `Catalog.NextIdIsMaxPlusOne` | movie-api/index.js:114-119 | with increasing ids, "last id + 1" equals "largest id + 1" |
| `Catalog.CreateKeepsWellFormed` | movie-api/index.js:114-128 | appending a validated body under the next id keeps ids increasing and every record well formed |
| `Catalog.GetAfterCreate` | movie-api/index.js:114-131 | after a create, GET of the new id returns exactly the new record |
| `MovieApi.MovieStore.Create` | movie-api/index.js:91-132 | a rejected body gives its validation error and leaves the table unchanged; an accepted one appends exactly one record (next id, the body's fields, the numeric year), leaves the earlier records as they were, and replies 201 with it |
| `MovieApi.CreateOnSeedTable` | movie-api/index.js:114-131 | on the seed table, POST of Dune (2021) replies 201 with id 4 |
| `Catalog.UpdateKeepsWellFormed` | movie-api/index.js:163-168 | replacing a record by a well-formed one with the same id keeps the table invariant |
| `Catalog.GetAfterUpdate` | movie-api/index.js:163-170 | after an update, GET of that id returns the replacement |
| `MovieApi.MovieStore.Update` | movie-api/index.js:135-171 | 404 before any validation when no record has the id; then the validation error with the table unchanged; else replies 200 with the new record, whose id is kept, placed at the same index, with length and every other record unchanged |
| `MovieApi.UpdateMissingOnSeedTable` | movie-api/index.js:139-143 | PUT of id 99 on the seed table replies 404 even with a valid body |
| `Catalog.Without` | movie-api/index.js:178 | the filtered table holds exactly the records without the id; its length is unchanged exactly when no record had the id, and then it is the table itself |
| `Catalog.WithoutKeepsOrder` | movie-api/index.js:178 | the surviving records keep their order |
| `Catalog.SubsequenceKeepsIncreasing` | movie-api/index.js:178 | an order-preserving subsequence of a table with increasing ids has increasing ids |
| `Catalog.WithoutKeepsWellFormed` | movie-api/index.js:178 | delete keeps the table invariant |
| `Catalog.WithoutRemovesOne` | movie-api/index.js:178 | with increasing ids, delete removes exactly the one record `findIndex` finds |
| `Catalog.DeleteReply` | movie-api/index.js:176-186 | the length comparison after filtering replies 404 exactly when no record has the id, and 204 exactly when one does |
| `Catalog.DeleteTwiceNotFound` | movie-api/index.js:178-183 | a second delete of the same id removes nothing and replies 404 |
| `MovieApi.MovieStore.Delete` | movie-api/index.js:174-187 | the new table is the old one without the records carrying the id; the reply is `DeleteReply`'s: 404 with the table unchanged when none did, else 204, with exactly the found record removed |
| `MovieApi.DeleteTwiceOnSeedTable` | movie-api/index.js:174-187 | on the seed table, deleting id 2 twice replies 204 and then 404 |
| `Catalog.DeleteLastReusesId` | movie-api/index.js:115-118 | after the last record is deleted, the next id is at most the deleted id, and equals it when the ids before it were consecutive |
| `MovieApi.DeleteThenCreateOnSeedTable` | movie-api/index.js:115-118 | on the seed table, deleting id 3 and then creating a movie hands out id 3 again |

## Left out

- Express setup, JSON body parsing, morgan logging and `app.listen` (movie-api/index.js:1-11, 194-197) are framework and I/O plumbing.
- The HTML info page at `/` (movie-api/index.js:21-37) is presentation only. The catch-all 404 route (movie-api/index.js:190-192) is a constant reply.
- The current year comes from the wall clock in the source (`new Date().getFullYear()`). Here it is the `currentYear` parameter of `Validate`, `Create` and `Update`.
- `Number()` coercion is abstracted to `NaN | Num(int)`. Fractional numbers such as "2010.5" or a year of 2010.5 have no counterpart in the model: the source would accept such a year and store it, and would match such an id or year filter only against an equal fraction. Booleans, `null`, whitespace or hex strings are modelled by the integer or NaN that `Number()` yields for them.
- Title and director are modelled as strings. A falsy value (absent, empty, `null`, `0`, `false`) is the empty string. Truthy non-string values, which the source would store as they are, are not modelled. Repeated query parameters, which Express turns into arrays, are not modelled either.
- `toLowerCase` is modelled on ASCII letters only. Unicode case mapping is not.
- Reply bodies are values. The JSON encoding and the exact error texts are not modelled, but each error message has its own `Error` constructor, and the out-of-range one carries `currentYear + 1`. The source's GET handlers return the table's own objects (aliases). The model returns copies, which is indistinguishable once the reply is serialized.
- `Catalog.List`: its own contract says only that the reply is a list or the year-filter 400. Its full meaning is stated by `Catalog.ListSelects` and `Catalog.ListIsMatchingSubsequence`.
- The class methods `Create`, `Update` and `Delete` take the table invariant (`Valid()`) as a precondition. The constructor establishes it and every method keeps it. The pure lemmas state what happens without it, where that matters (`FindIndex`, `Without`, `Validate`).
