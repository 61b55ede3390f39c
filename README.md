# Review collection of the `/api/resenas` service

The service keeps a collection of book reviews in one JSON document. Every
request reads the whole document, works on the array in memory and, when it
changes something, writes the whole array back. This project models that
in-memory work with the HTTP layer and the file access stripped away.

- **Creating a review (POST).** The body is validated, the new record gets
  id max+1 (or 1 in an empty collection), defaults are filled in, and the
  record is appended.
- **Getting a review by id (GET).** The first record with the id, or 404.
- **Updating a review (PUT).** First a 404 check, then validation, then a
  per-field merge into the first record with the id.
- **Deleting a review (DELETE).** The first record with the id is spliced out.
- **Searching (GET `buscar/query`).** A chain of filters, one per given
  parameter. Three are case-insensitive substring filters; the fourth keeps
  ratings at or above a minimum.

Stored fields map to Dafny fields as follows: `id` → `id`, `autores` →
`authors`, `titulo` → `title`, `serie` → `series`, `valoracion` → `rating`,
`comentarios` → `comments`. In a request body or a query, a field that is
`undefined` is `None`. The answers 200/201, 404 and 400 are `Ok`,
`NotFound` and `Invalid`; `Invalid` names the rule that was broken.

Files:

- `text.dfy` (module `Text`): ASCII lower-casing and the substring test
  (`includes`).
- `reviews.dfy` (module `Reviews`): the datatypes and the pure steps of the
  handlers: validation, the next id, defaults, the PUT merge, the
  `findIndex`/`find` lookups and `splice`. It also holds the collection
  invariant `WellFormed` (unique ids, ids ≥ 1, non-empty authors and title,
  rating in 0..5) and the lemmas about these steps.
- `search.dfy` (module `Search`): the search handler as the same chain of
  filters the source runs. It is proved equal to one filter by all the given
  parameters and proved to return an order-preserving subsequence.
- `store.dfy` (module `Store`): the class `ReviewStore` holding the loaded
  array. Its methods `Create`, `Update` and `Delete` change it in place as
  the handlers do. Each method's `ensures` gives the whole new state and the
  answer. Each method also keeps `WellFormed`. `Walkthrough` is a
  verified client that steps through create → get → update → delete → get on
  an empty collection. It concludes each answer from those contracts alone.

PUT never sets a rating to 0: a supplied `valoracion` must lie in [1,5]
(api.js:157-159), as `UpdateCheck` states. A record created without
`valoracion` keeps its rating of 0 (api.js:122) through a PUT that does not
supply one (api.js:165).

## Model

| member | source | states |
|---|---|---|
| `Text.Lower` | api.js:69 | lower-casing keeps the length and lower-cases each character in place (ASCII letters only) |
| `Text.Contains` | api.js:69-81 | `includes`: never holds for a needle longer than the haystack; exactly characterised by `ContainsIffOccurs` |
| `Text.ContainsIgnoringCase` | api.js:69-81 | `h.toLowerCase().includes(n.toLowerCase())`: the empty needle matches every string, and a needle longer than the haystack never does |
| `Text.ContainsOfOccurs` | api.js:69 | an occurrence of the needle at any position makes `includes` hold |
| `Text.OccursOfContains` | api.js:69 | when `includes` holds, it returns a position where the needle occurs |
| `Text.ContainsIffOccurs` | api.js:69 | `includes` holds exactly when the needle occurs at some position of the haystack |
| `Text.ContainsIgnoringCaseProperties` | api.js:69-81 | the case-insensitive test ignores the case of both arguments, and an exact occurrence always counts as a match |
| `Reviews.CreateCheck` | api.js:102-112 | a POST body is accepted exactly when authors are given and non-empty, the title is given and non-empty, and a given rating lies in [1,5]; otherwise it names the first failing check in the handler's order: `AuthorsRequired` exactly when authors are absent or empty, `TitleRequired` only when authors pass and the title is absent or empty, `RatingOutOfRange` only when authors and title pass and the rating is out of range |
| `Reviews.MaxId` | api.js:115 | `Math.max` of the ids is at least every id and is the id of some record |
| `Reviews.NextId` | api.js:115 | the new id is 1 for an empty collection; otherwise it is one more than an existing id and greater than every id |
| `Reviews.OrDefault` | api.js:121-123 | `x or d` on a string field: a supplied non-empty value wins, an absent or empty one gives the default |
| `Reviews.NewReview` | api.js:117-124 | the created record has the assigned id, the body's authors and title, series "N/A" when absent or empty, rating 0 when absent, comments "" when absent; with an id ≥ 1 it satisfies the record invariant |
| `Reviews.CreateKeepsWellFormed` | api.js:115-126 | appending the new record to a well-formed collection keeps it well-formed (the id is fresh, so ids stay unique) |
| `Reviews.GetByIdAfterCreate` | api.js:115-126 | after the append, GET of the new id returns the new record and GET of every other id answers as before |
| `Reviews.IndexOfAppend` | api.js:126 | `findIndex` on the collection with one record pushed finds the old match if any, otherwise the new record when its id matches |
| `Reviews.UpdateCheck` | api.js:153-159 | a PUT body is accepted exactly when supplied authors are non-empty and a supplied rating lies in [1,5]; `AuthorsEmpty` is named exactly when authors are supplied and empty, `RatingOutOfRange` only when the authors pass and the rating is out of range; the title is never checked |
| `Reviews.Merged` | api.js:162-166 | the id never changes; authors, series, rating and comments are replaced whenever supplied (series and comments even by ""); the title only by a non-empty one; a field not supplied keeps its value |
| `Reviews.MergedNothing` | api.js:162-166 | a PUT body with no fields leaves the record as it was |
| `Reviews.UpdateKeepsWellFormed` | api.js:153-166 | merging a validated body into one record of a well-formed collection keeps it well-formed |
| `Reviews.UpdateIdempotent` | api.js:144-166 | sending the same PUT twice finds the same record and leaves the collection as after the first |
| `Reviews.IndexOfSameIds` | api.js:144 | `findIndex` depends only on the ids, in order |
| `Reviews.IndexOf` | api.js:144 | `findIndex` gives the first position whose record has the id, or none when no record has it |
| `Reviews.UniqueIndex` | api.js:144 | when ids are unique, `findIndex` of a record's id is that record's position |
| `Reviews.GetById` | api.js:48-52 | GET by id answers the first record with the id, or 404 exactly when no record has it; never 400 |
| `Reviews.Without` | api.js:191 | `splice(i, 1)` shortens the collection by one, shifts the records after `i` down by one, and removes exactly one copy of the `i`-th record |
| `Reviews.DeleteIsSubsequence` | api.js:191 | after the splice the remaining records keep their relative order |
| `Reviews.DeleteKeepsWellFormed` | api.js:191 | the splice keeps a well-formed collection well-formed |
| `Reviews.DeleteRemovesId` | api.js:185-191 | with unique ids, after DELETE of an id, GET of that id answers 404 |
| `Search.Keep` | api.js:68-87 | `filter` keeps exactly the records that meet the criteria, every occurrence of each (a kept record appears as often as in the input, a dropped one not at all), and never lengthens the collection |
| `Search.Stage` | api.js:67-87 | one `if (param) list = list.filter(...)` step: with no criterion every record stays, as often as before; otherwise exactly the records meeting the criterion stay, each as often as before |
| `Search.KeepKeep` | api.js:67-88 | two filters in a row equal one filter by both criteria |
| `Search.KeepIdempotent` | api.js:67-88 | filtering again by the same criteria changes nothing |
| `Search.KeepIsSubsequence` | api.js:67-88 | a filter returns its records in collection order |
| `Search.KeepNothing` | api.js:67-88 | a filter with no criteria keeps every record |
| `Search.SearchIsKeep` | api.js:64-88 | the handler's chain of four conditional filters equals one filter by the given parameters |
| `Search.Search` | api.js:64-88 | a record is in the answer exactly when it is in the collection and meets every given parameter: some author contains `autor`, the title contains `titulo` and the series contains `serie` (all ignoring case), and the rating is at least `valoracion`; each kept record appears as often as in the collection |
| `Search.SearchIsSubsequence` | api.js:64-88 | the answer is an order-preserving subsequence of the collection |
| `Search.SearchIdempotent` | api.js:64-88 | searching the answer again with the same query gives the same answer |
| `Search.SearchWithoutFilters` | api.js:67-88 | a query whose parameters are all absent or empty returns the whole collection |
| `Store.ReviewStore.Create` | api.js:99-126 | a rejected body gives 400 with the first broken rule and leaves the collection unchanged; otherwise the answer is the new record, it is appended at the end, all earlier records are unchanged, and the invariant is kept |
| `Store.ReviewStore.Update` | api.js:142-166 | an unknown id gives 404 before any validation; then a rejected body gives 400; in both cases the collection is unchanged. Otherwise only the first record with the id is replaced by the merge, every other record is untouched, and the invariant is kept |
| `Store.ReviewStore.Delete` | api.js:183-191 | an unknown id gives 404 and leaves the collection unchanged; otherwise the first record with the id is spliced out, and the invariant is kept |

## Left out

- HTTP routing, middleware, `app.listen`, logging, status codes and JSON
  response bodies (api.js:1-10, 204-216). The answers are the `Outcome`
  constructors.
- Reading and writing the storage document (api.js:13-32). The object's
  `reviews` field is whatever `leerResenas` returned, including `[]` after a
  failed read. The write is taken to succeed, so the 500 answer for a failed
  write is not modelled, and nothing is claimed about the file contents.
- GET `/api/resenas` (api.js:35-42) returns the loaded array unchanged; the
  `reviews` field itself is its model.
- `parseInt` of path ids and of the `valoracion` query (api.js:48, 86, 142,
  183). Ids are `int`, and the minimum rating is `Option<int>`, where `None`
  means the query string is absent or empty. A non-numeric `valoracion`
  (NaN, which filters out every record) is not modelled.
- JavaScript's dynamic types. The `typeof` and `Array.isArray` checks,
  `null` fields, array-valued query parameters and non-string author entries
  cannot arise with typed fields.
- Ratings are integers. The source also accepts fractional ratings in [1,5],
  such as 2.5, because it checks only the range.
- `Text.Lower`: lower-cases ASCII letters only, not Unicode `toLowerCase`.
- The read-modify-write race between concurrent requests, and the 500
  answers raised by exceptions.
- `Reviews.MaxId`: the spread into `Math.max` is not limited in length, so
  the `RangeError` JavaScript raises for very large collections is not
  modelled.
- `Reviews.NextId`: ids are unbounded integers, whereas JavaScript numbers
  are doubles. Once the largest id reaches 2^53, `max + 1` (api.js:115)
  rounds back to a number at or near `max`, and the source can hand out an
  id that already exists. `NextId`'s freshness, `CreateKeepsWellFormed` and
  `GetByIdAfterCreate` therefore describe the source only while every id is
  below 2^53.
