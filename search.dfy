/**
 GET `/api/resenas/buscar/query`: a chain of `filter` calls, one per query
 parameter that is given, over the loaded collection.
 */
module Search {
  import opened Text
  import opened Reviews

  /** The query parameters `autor`, `titulo`, `serie` and `valoracion` (the minimum rating). */
  datatype Query = Query(
    author: Option<string>,
    title: Option<string>,
    series: Option<string>,
    minRating: Option<int>)

  /** One filter of the chain. */
  datatype Criterion =
    | AuthorContains(text: string)
    | TitleContains(text: string)
    | SeriesContains(text: string)
    | RatingAtLeast(min: int)

  predicate Satisfies(r: Review, c: Criterion)
  {
    match c
    case AuthorContains(text) => exists a :: a in r.authors && ContainsIgnoringCase(a, text)
    case TitleContains(text) => ContainsIgnoringCase(r.title, text)
    case SeriesContains(text) => ContainsIgnoringCase(r.series, text)
    case RatingAtLeast(min) => r.rating >= min
  }

  predicate SatisfiesAll(r: Review, cs: seq<Criterion>)
  {
    forall c :: c in cs ==> Satisfies(r, c)
  }

  /** `s.filter(...)`: the records that meet every criterion of `cs`, in their order. */
  function Keep(s: seq<Review>, cs: seq<Criterion>): (t: seq<Review>)
    ensures forall x :: x in t <==> x in s && SatisfiesAll(x, cs)
    ensures forall x :: multiset(t)[x] == if SatisfiesAll(x, cs) then multiset(s)[x] else 0
    ensures |t| <= |s|
  {
    if s == [] then []
    else
      assert s == [s[0]] + s[1..];
      (if SatisfiesAll(s[0], cs) then [s[0]] else []) + Keep(s[1..], cs)
  }

  /** A query string is applied only when it is truthy, that is, present and non-empty. */
  predicate Given(q: Option<string>)
  {
    q.Some? && q.value != ""
  }

  /** The criterion each query parameter switches on, if any. */
  function AuthorFilter(q: Query): Option<Criterion>
  {
    if Given(q.author) then Some(AuthorContains(q.author.value)) else None
  }

  function TitleFilter(q: Query): Option<Criterion>
  {
    if Given(q.title) then Some(TitleContains(q.title.value)) else None
  }

  function SeriesFilter(q: Query): Option<Criterion>
  {
    if Given(q.series) then Some(SeriesContains(q.series.value)) else None
  }

  function RatingFilter(q: Query): Option<Criterion>
  {
    if q.minRating.Some? then Some(RatingAtLeast(q.minRating.value)) else None
  }

  /** A record meets an optional criterion when the criterion is absent or it satisfies it. */
  predicate Meets(r: Review, c: Option<Criterion>)
  {
    c.Some? ==> Satisfies(r, c.value)
  }

  /** One step `if (param) list = list.filter(...)` of the chain. */
  function Stage(s: seq<Review>, c: Option<Criterion>): (t: seq<Review>)
    ensures forall x :: x in t <==> x in s && Meets(x, c)
    ensures forall x :: multiset(t)[x] == if Meets(x, c) then multiset(s)[x] else 0
  {
    if c.Some? then KeepOne(s, c.value); Keep(s, [c.value]) else s
  }

  /** The handler's chain of filters, in the handler's order. */
  function Search(s: seq<Review>, q: Query): (r: seq<Review>)
    ensures forall x :: x in r <==> x in s && Matches(x, q)
    ensures forall x :: multiset(r)[x] == if Matches(x, q) then multiset(s)[x] else 0
  {
    var byAuthor := Stage(s, AuthorFilter(q));
    var byTitle := Stage(byAuthor, TitleFilter(q));
    var bySeries := Stage(byTitle, SeriesFilter(q));
    MatchesMeetsAll(q);
    Stage(bySeries, RatingFilter(q))
  }

  /** A record matches a query exactly when it meets the criterion of each parameter. */
  lemma MatchesMeetsAll(q: Query)
    ensures forall x ::
              Matches(x, q) ==
                (Meets(x, AuthorFilter(q)) && Meets(x, TitleFilter(q)) &&
                 Meets(x, SeriesFilter(q)) && Meets(x, RatingFilter(q)))
  {
  }

  /** A filter by a single criterion keeps exactly the records that meet it. */
  lemma KeepOne(s: seq<Review>, c: Criterion)
    ensures forall x :: SatisfiesAll(x, [c]) == Satisfies(x, c)
  {
    forall x ensures SatisfiesAll(x, [c]) == Satisfies(x, c) {
      assert c in [c];
    }
  }

  /** The criteria a query switches on. */
  function Active(q: Query): seq<Criterion>
  {
    (if Given(q.author) then [AuthorContains(q.author.value)] else []) +
    (if Given(q.title) then [TitleContains(q.title.value)] else []) +
    (if Given(q.series) then [SeriesContains(q.series.value)] else []) +
    (if q.minRating.Some? then [RatingAtLeast(q.minRating.value)] else [])
  }

  /** What a record must be to be kept, stated parameter by parameter. */
  predicate Matches(r: Review, q: Query)
  {
    && (Given(q.author) ==> exists a :: a in r.authors && ContainsIgnoringCase(a, q.author.value))
    && (Given(q.title) ==> ContainsIgnoringCase(r.title, q.title.value))
    && (Given(q.series) ==> ContainsIgnoringCase(r.series, q.series.value))
    && (q.minRating.Some? ==> r.rating >= q.minRating.value)
  }

  /** Filtering with no criteria keeps everything. */
  lemma {:induction false} KeepNothing(s: seq<Review>)
    ensures Keep(s, []) == s
  {
    if s != [] {
      KeepNothing(s[1..]);
      assert s == [s[0]] + s[1..];
    }
  }

  /** Two filters in a row are one filter with both criteria. */
  lemma {:induction false} KeepKeep(s: seq<Review>, a: seq<Criterion>, b: seq<Criterion>)
    ensures Keep(Keep(s, a), b) == Keep(s, a + b)
  {
    if s != [] {
      KeepKeep(s[1..], a, b);
      assert SatisfiesAll(s[0], a + b) == (SatisfiesAll(s[0], a) && SatisfiesAll(s[0], b));
      var k := Keep(s, a);
      if SatisfiesAll(s[0], a) {
        assert k == [s[0]] + Keep(s[1..], a);
        assert k[0] == s[0] && k[1..] == Keep(s[1..], a);
        assert Keep(k, b) == (if SatisfiesAll(s[0], b) then [s[0]] else []) + Keep(Keep(s[1..], a), b);
      } else {
        assert k == Keep(s[1..], a);
      }
    }
  }

  /** Filtering twice with the same criteria is filtering once. */
  lemma {:induction false} KeepIdempotent(s: seq<Review>, cs: seq<Criterion>)
    ensures Keep(Keep(s, cs), cs) == Keep(s, cs)
  {
    if s != [] {
      KeepIdempotent(s[1..], cs);
      var k := Keep(s, cs);
      if SatisfiesAll(s[0], cs) {
        assert k == [s[0]] + Keep(s[1..], cs);
        assert k[0] == s[0] && k[1..] == Keep(s[1..], cs);
      } else {
        assert k == Keep(s[1..], cs);
      }
    }
  }

  /** A filter keeps the records it keeps in their order. */
  lemma {:induction false} KeepIsSubsequence(s: seq<Review>, cs: seq<Criterion>)
    ensures IsSubsequence(Keep(s, cs), s)
  {
    if s != [] {
      KeepIsSubsequence(s[1..], cs);
      var k := Keep(s, cs);
      if SatisfiesAll(s[0], cs) {
        assert k == [s[0]] + Keep(s[1..], cs);
        assert k[0] == s[0] && k[1..] == Keep(s[1..], cs);
      } else {
        assert k == Keep(s[1..], cs);
      }
    }
  }

  /** The chain of filters is one filter by the active criteria. */
  lemma SearchIsKeep(s: seq<Review>, q: Query)
    ensures Search(s, q) == Keep(s, Active(q))
  {
    var ca := if Given(q.author) then [AuthorContains(q.author.value)] else [];
    var ct := if Given(q.title) then [TitleContains(q.title.value)] else [];
    var cs := if Given(q.series) then [SeriesContains(q.series.value)] else [];
    var cr := if q.minRating.Some? then [RatingAtLeast(q.minRating.value)] else [];
    KeepNothing(s);
    var s1 := Keep(s, ca);
    KeepNothing(s1);
    KeepKeep(s, ca, ct);
    var s2 := Keep(s, ca + ct);
    KeepNothing(s2);
    KeepKeep(s, ca + ct, cs);
    var s3 := Keep(s, ca + ct + cs);
    KeepNothing(s3);
    KeepKeep(s, ca + ct + cs, cr);
  }

  /** The answer lists its records in collection order. */
  lemma SearchIsSubsequence(s: seq<Review>, q: Query)
    ensures IsSubsequence(Search(s, q), s)
  {
    SearchIsKeep(s, q);
    KeepIsSubsequence(s, Active(q));
  }

  /** Searching the answer again with the same query gives the same answer. */
  lemma SearchIdempotent(s: seq<Review>, q: Query)
    ensures Search(Search(s, q), q) == Search(s, q)
  {
    SearchIsKeep(s, q);
    SearchIsKeep(Search(s, q), q);
    KeepIdempotent(s, Active(q));
  }

  /** A query whose parameters are all absent or empty returns the whole collection. */
  lemma SearchWithoutFilters(s: seq<Review>, q: Query)
    requires !Given(q.author) && !Given(q.title) && !Given(q.series) && q.minRating.None?
    ensures Search(s, q) == s
  {
    KeepNothing(s);
  }
}
