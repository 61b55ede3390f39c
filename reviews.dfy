/**
 The review records of the `/api/resenas` service and the pure steps its
 handlers take on the loaded collection: validating a request body, choosing
 the next id, filling in defaults, merging an update, finding a record by id
 and splicing one out.
 */
module Reviews {

  /** A field of a JSON body or query that may be `undefined`. */
  datatype Option<T> = None | Some(value: T)

  /**
   One stored review `{id, autores, titulo, serie, valoracion, comentarios}`;
   `rating` 0 stands for "not rated".
   */
  datatype Review = Review(
    id: int,
    authors: seq<string>,
    title: string,
    series: string,
    rating: int,
    comments: string)

  /** The fields a POST or PUT body may carry. */
  datatype Input = Input(
    authors: Option<seq<string>>,
    title: Option<string>,
    series: Option<string>,
    rating: Option<int>,
    comments: Option<string>)

  /** The reasons a body is rejected with status 400, one per message of the handlers. */
  datatype Violation =
    | AuthorsRequired   // POST: `autores` absent or empty
    | TitleRequired     // POST: `titulo` absent or empty
    | AuthorsEmpty      // PUT: `autores` supplied but empty
    | RatingOutOfRange  // POST and PUT: `valoracion` supplied outside [1,5]

  /** What a handler answers: the value (200/201), 404, or 400. */
  datatype Outcome<T> = Ok(value: T) | NotFound | Invalid(violation: Violation)

  /** A supplied `valoracion` must lie in [1,5]; an absent one is accepted. */
  predicate RatingAccepted(rating: Option<int>)
  {
    rating.Some? ==> 1 <= rating.value <= 5
  }

  /** `x || d` for a string field: the supplied value unless it is absent or empty. */
  function OrDefault(x: Option<string>, d: string): (r: string)
    ensures x.Some? && x.value != "" ==> r == x.value
    ensures x.None? || x.value == "" ==> r == d
  {
    if x.Some? && x.value != "" then x.value else d
  }

  /** The first rule a POST body breaks, in the order the handler tests them. */
  function CreateCheck(input: Input): (v: Option<Violation>)
    ensures v.None? <==>
      && input.authors.Some? && input.authors.value != []
      && input.title.Some? && input.title.value != ""
      && RatingAccepted(input.rating)
    ensures v == Some(AuthorsRequired) <==> input.authors.None? || input.authors.value == []
    ensures v == Some(TitleRequired) ==> input.authors.Some? && input.authors.value != []
    ensures v == Some(TitleRequired) ==> input.title.None? || input.title.value == ""
    ensures v == Some(RatingOutOfRange) ==>
      input.authors.Some? && input.authors.value != [] && input.title.Some? && input.title.value != ""
    ensures v == Some(RatingOutOfRange) ==> !RatingAccepted(input.rating)
    ensures v != Some(AuthorsEmpty)
  {
    if input.authors.None? || input.authors.value == [] then Some(AuthorsRequired)
    else if input.title.None? || input.title.value == "" then Some(TitleRequired)
    else if !RatingAccepted(input.rating) then Some(RatingOutOfRange)
    else None
  }

  /** The first rule a PUT body breaks; the title is not validated. */
  function UpdateCheck(input: Input): (v: Option<Violation>)
    ensures v.None? <==>
      (input.authors.Some? ==> input.authors.value != []) && RatingAccepted(input.rating)
    ensures v == Some(AuthorsEmpty) <==> input.authors.Some? && input.authors.value == []
    ensures v == Some(RatingOutOfRange) ==> input.authors.Some? ==> input.authors.value != []
    ensures v == Some(RatingOutOfRange) ==> !RatingAccepted(input.rating)
    ensures v != Some(AuthorsRequired) && v != Some(TitleRequired)
  {
    if input.authors.Some? && input.authors.value == [] then Some(AuthorsEmpty)
    else if !RatingAccepted(input.rating) then Some(RatingOutOfRange)
    else None
  }

  /** `Math.max(...ids)` over a non-empty collection. */
  function MaxId(s: seq<Review>): (m: int)
    requires s != []
    ensures forall i :: 0 <= i < |s| ==> s[i].id <= m
    ensures exists i :: 0 <= i < |s| && s[i].id == m
  {
    if |s| == 1 then s[0].id
    else
      var rest := MaxId(s[1..]);
      assert exists i :: 1 <= i < |s| && s[i].id == rest by {
        var j :| 0 <= j < |s[1..]| && s[1..][j].id == rest;
        assert s[j + 1].id == rest;
      }
      if s[0].id >= rest then s[0].id else rest
  }

  /** The id a new review receives: 1 in an empty collection, otherwise one more than the largest id. */
  function NextId(s: seq<Review>): (n: int)
    ensures forall i :: 0 <= i < |s| ==> s[i].id < n
    ensures s == [] ==> n == 1
    ensures s != [] ==> exists i :: 0 <= i < |s| && s[i].id == n - 1
  {
    if |s| > 0 then MaxId(s) + 1 else 1
  }

  /** A record as POST stores it: the given id, the body's fields and the defaults. */
  function NewReview(id: int, input: Input): (r: Review)
    requires CreateCheck(input).None?
    ensures r.id == id && r.authors == input.authors.value && r.title == input.title.value
    ensures r.series == (if input.series.Some? && input.series.value != "" then input.series.value else "N/A")
    ensures r.rating == (if input.rating.Some? then input.rating.value else 0)
    ensures input.comments.Some? ==> r.comments == input.comments.value
    ensures input.comments.None? ==> r.comments == ""
    ensures id >= 1 ==> ValidReview(r)
  {
    Review(
      id,
      input.authors.value,
      input.title.value,
      OrDefault(input.series, "N/A"),
      if input.rating.Some? then input.rating.value else 0,
      OrDefault(input.comments, ""))
  }

  /** A record after PUT writes the supplied fields of a body over it. */
  function Merged(r: Review, input: Input): (m: Review)
    ensures m.id == r.id
    ensures m.authors == if input.authors.Some? then input.authors.value else r.authors
    ensures m.title == if input.title.Some? && input.title.value != "" then input.title.value else r.title
    ensures m.series == if input.series.Some? then input.series.value else r.series
    ensures m.rating == if input.rating.Some? then input.rating.value else r.rating
    ensures m.comments == if input.comments.Some? then input.comments.value else r.comments
  {
    var r1 := if input.authors.Some? then r.(authors := input.authors.value) else r;
    var r2 := if input.title.Some? && input.title.value != "" then r1.(title := input.title.value) else r1;
    var r3 := if input.series.Some? then r2.(series := input.series.value) else r2;
    var r4 := if input.rating.Some? then r3.(rating := input.rating.value) else r3;
    if input.comments.Some? then r4.(comments := input.comments.value) else r4
  }

  /** `findIndex(r => r.id === id)`: the position of the first record with that id. */
  function IndexOf(s: seq<Review>, id: int): (k: Option<nat>)
    ensures k.Some? ==> k.value < |s| && s[k.value].id == id
    ensures k.Some? ==> forall j :: 0 <= j < k.value ==> s[j].id != id
    ensures k.None? ==> forall j :: 0 <= j < |s| ==> s[j].id != id
  {
    if s == [] then None
    else if s[0].id == id then Some(0)
    else match IndexOf(s[1..], id)
      case None => None
      case Some(k) => Some(k + 1)
  }

  /** GET `/api/resenas/:id`: the first record with that id (`find`), or 404. */
  function GetById(s: seq<Review>, id: int): (r: Outcome<Review>)
    ensures r.Ok? || r.NotFound?
    ensures r.NotFound? <==> forall j :: 0 <= j < |s| ==> s[j].id != id
    ensures r.Ok? ==> exists k :: 0 <= k < |s| && s[k] == r.value && r.value.id == id &&
                                 forall j :: 0 <= j < k ==> s[j].id != id
  {
    match IndexOf(s, id)
    case None => NotFound
    case Some(k) => Ok(s[k])
  }

  /** `splice(i, 1)`: the collection without its `i`-th record, the rest in order. */
  function Without(s: seq<Review>, i: nat): (t: seq<Review>)
    requires i < |s|
    ensures |t| == |s| - 1
    ensures forall j :: 0 <= j < i ==> t[j] == s[j]
    ensures forall j :: i <= j < |t| ==> t[j] == s[j + 1]
    ensures multiset(t) + multiset{s[i]} == multiset(s)
  {
    assert s == s[..i] + [s[i]] + s[i + 1..];
    s[..i] + s[i + 1..]
  }

  /** `a` is `b` with some records left out, the others in their order. */
  ghost predicate IsSubsequence<T>(a: seq<T>, b: seq<T>)
    decreases |b|
  {
    && |a| <= |b|
    && (|a| == 0 || (a[0] == b[0] && IsSubsequence(a[1..], b[1..])) || IsSubsequence(a, b[1..]))
  }

  lemma {:induction false} SubsequenceReflexive<T>(s: seq<T>)
    ensures IsSubsequence(s, s)
  {
    if s != [] {
      SubsequenceReflexive(s[1..]);
    }
  }

  /** No two records share an id. */
  ghost predicate UniqueIds(s: seq<Review>)
  {
    forall i, j :: 0 <= i < j < |s| ==> s[i].id != s[j].id
  }

  /** A record as the handlers create and keep it. */
  ghost predicate ValidReview(r: Review)
  {
    r.id >= 1 && r.authors != [] && r.title != "" && 0 <= r.rating <= 5
  }

  /** The invariant of a collection that only this service has written. */
  ghost predicate WellFormed(s: seq<Review>)
  {
    UniqueIds(s) && forall i :: 0 <= i < |s| ==> ValidReview(s[i])
  }

  /** POST keeps a well-formed collection well-formed. */
  lemma CreateKeepsWellFormed(s: seq<Review>, input: Input)
    requires WellFormed(s) && CreateCheck(input).None?
    ensures WellFormed(s + [NewReview(NextId(s), input)])
  {
    if s != [] {
      var i :| 0 <= i < |s| && s[i].id == NextId(s) - 1;
      assert ValidReview(s[i]);
    }
  }

  /**
   After POST the new record is found under its id, and every other id finds
   what it found before.
   */
  lemma {:induction false} GetByIdAfterCreate(s: seq<Review>, r: Review, id: int)
    requires r.id == NextId(s)
    ensures GetById(s + [r], r.id) == Ok(r)
    ensures id != r.id ==> GetById(s + [r], id) == GetById(s, id)
  {
    IndexOfAppend(s, r, r.id);
    IndexOfAppend(s, r, id);
  }

  lemma {:induction false} IndexOfAppend(s: seq<Review>, r: Review, id: int)
    ensures IndexOf(s + [r], id) ==
      if IndexOf(s, id).Some? then IndexOf(s, id) else if r.id == id then Some(|s|) else None
  {
    if s != [] {
      assert (s + [r])[1..] == s[1..] + [r];
      IndexOfAppend(s[1..], r, id);
    }
  }

  /** In a collection with unique ids, the first record with an id is the only one. */
  lemma UniqueIndex(s: seq<Review>, k: nat)
    requires UniqueIds(s) && k < |s|
    ensures IndexOf(s, s[k].id) == Some(k)
  {
  }

  /** PUT keeps a well-formed collection well-formed. */
  lemma UpdateKeepsWellFormed(s: seq<Review>, k: nat, input: Input)
    requires WellFormed(s) && k < |s| && UpdateCheck(input).None?
    ensures WellFormed(s[k := Merged(s[k], input)])
  {
    var t := s[k := Merged(s[k], input)];
    assert forall i :: 0 <= i < |s| ==> t[i].id == s[i].id;
  }

  /** A PUT body with no fields changes nothing. */
  lemma MergedNothing(r: Review)
    ensures Merged(r, Input(None, None, None, None, None)) == r
  {
  }

  /**
   PUT is idempotent: the same body sent twice to the same id finds the same
   record and leaves the collection as one request did.
   */
  lemma UpdateIdempotent(s: seq<Review>, id: int, input: Input)
    requires IndexOf(s, id).Some?
    ensures var k := IndexOf(s, id).value;
            var t := s[k := Merged(s[k], input)];
            IndexOf(t, id) == Some(k) && t[k := Merged(t[k], input)] == t
  {
    var k := IndexOf(s, id).value;
    var t := s[k := Merged(s[k], input)];
    IndexOfSameIds(s, t, id);
  }

  /** Two collections whose records carry the same ids in the same order find an id at the same place. */
  lemma {:induction false} IndexOfSameIds(s: seq<Review>, t: seq<Review>, id: int)
    requires |s| == |t| && forall i :: 0 <= i < |s| ==> s[i].id == t[i].id
    ensures IndexOf(s, id) == IndexOf(t, id)
  {
    if s != [] {
      IndexOfSameIds(s[1..], t[1..], id);
    }
  }

  /** DELETE keeps a well-formed collection well-formed. */
  lemma DeleteKeepsWellFormed(s: seq<Review>, k: nat)
    requires WellFormed(s) && k < |s|
    ensures WellFormed(Without(s, k))
  {
    var t := Without(s, k);
    forall i, j | 0 <= i < j < |t|
      ensures t[i].id != t[j].id
    {
      var i' := if i < k then i else i + 1;
      var j' := if j < k then j else j + 1;
      assert t[i] == s[i'] && t[j] == s[j'];
    }
  }

  /** DELETE keeps the remaining records in their relative order. */
  lemma {:induction false} DeleteIsSubsequence(s: seq<Review>, k: nat)
    requires k < |s|
    ensures IsSubsequence(Without(s, k), s)
  {
    var t := Without(s, k);
    if k == 0 {
      assert t == s[1..];
      SubsequenceReflexive(s[1..]);
    } else {
      assert t[1..] == Without(s[1..], k - 1);
      DeleteIsSubsequence(s[1..], k - 1);
    }
  }

  /** After DELETE in a collection with unique ids, GET of that id answers 404. */
  lemma DeleteRemovesId(s: seq<Review>, id: int)
    requires UniqueIds(s) && IndexOf(s, id).Some?
    ensures GetById(Without(s, IndexOf(s, id).value), id) == NotFound
  {
    var k := IndexOf(s, id).value;
    var t := Without(s, k);
    forall j | 0 <= j < |t|
      ensures t[j].id != id
    {
      if j >= k {
        assert t[j] == s[j + 1];
      }
    }
  }
}
