/**
 The handlers that change the collection: POST, PUT and DELETE on
 `/api/resenas`. Each works on the array read from the storage document,
 changes it in place and writes it back; the object below stands for that
 array between a read and the following write.
 */
module Store {
  import opened Reviews

  class ReviewStore {
    /** The collection as read from the storage document. */
    var reviews: seq<Review>

    constructor (loaded: seq<Review>)
      ensures reviews == loaded
    {
      reviews := loaded;
    }

    /**
     POST `/api/resenas`: reject a body that breaks a rule, with the first
     broken rule; otherwise append one record with a fresh id and the defaults.
     */
    method Create(input: Input) returns (res: Outcome<Review>)
      modifies this
      ensures CreateCheck(input).Some? ==>
                res == Invalid(CreateCheck(input).value) && reviews == old(reviews)
      ensures CreateCheck(input).None? ==>
                && res == Ok(NewReview(NextId(old(reviews)), input))
                && reviews == old(reviews) + [res.value]
      ensures WellFormed(old(reviews)) ==> WellFormed(reviews)
    {
      var violation := CreateCheck(input);
      if violation.Some? {
        return Invalid(violation.value);
      }
      var created := NewReview(NextId(reviews), input);
      if WellFormed(reviews) {
        CreateKeepsWellFormed(reviews, input);
      }
      reviews := reviews + [created];
      res := Ok(created);
    }

    /**
     PUT `/api/resenas/:id`: 404 when no record has the id, before the body
     is looked at; then reject a body that breaks a rule; otherwise write the
     supplied fields over the first record with that id.
     */
    method Update(id: int, input: Input) returns (res: Outcome<Review>)
      modifies this
      ensures IndexOf(old(reviews), id).None? ==> res == NotFound && reviews == old(reviews)
      ensures IndexOf(old(reviews), id).Some? && UpdateCheck(input).Some? ==>
                res == Invalid(UpdateCheck(input).value) && reviews == old(reviews)
      ensures IndexOf(old(reviews), id).Some? && UpdateCheck(input).None? ==>
                var k := IndexOf(old(reviews), id).value;
                res == Ok(Merged(old(reviews)[k], input)) && reviews == old(reviews)[k := res.value]
      ensures WellFormed(old(reviews)) ==> WellFormed(reviews)
    {
      var index := IndexOf(reviews, id);
      if index.None? {
        return NotFound;
      }
      var violation := UpdateCheck(input);
      if violation.Some? {
        return Invalid(violation.value);
      }
      var k := index.value;
      var r := reviews[k];
      if input.authors.Some? {
        r := r.(authors := input.authors.value);
      }
      if input.title.Some? && input.title.value != "" {
        r := r.(title := input.title.value);
      }
      if input.series.Some? {
        r := r.(series := input.series.value);
      }
      if input.rating.Some? {
        r := r.(rating := input.rating.value);
      }
      if input.comments.Some? {
        r := r.(comments := input.comments.value);
      }
      if WellFormed(reviews) {
        UpdateKeepsWellFormed(reviews, k, input);
      }
      reviews := reviews[k := r];
      res := Ok(r);
    }

    /** DELETE `/api/resenas/:id`: 404 when no record has the id; otherwise splice out the first one that does. */
    method Delete(id: int) returns (res: Outcome<()>)
      modifies this
      ensures IndexOf(old(reviews), id).None? ==> res == NotFound && reviews == old(reviews)
      ensures IndexOf(old(reviews), id).Some? ==>
                res == Ok(()) && reviews == Without(old(reviews), IndexOf(old(reviews), id).value)
      ensures WellFormed(old(reviews)) ==> WellFormed(reviews)
    {
      var index := IndexOf(reviews, id);
      if index.None? {
        return NotFound;
      }
      var k := index.value;
      if WellFormed(reviews) {
        DeleteKeepsWellFormed(reviews, k);
      }
      reviews := reviews[..k] + reviews[k + 1..];
      res := Ok(());
    }
  }

  /**
   The create, read, update, delete, read sequence on an empty collection,
   concluded from the contracts above alone.
   */
  method Walkthrough()
  {
    var store := new ReviewStore([]);
    var created := store.Create(Input(Some(["A"]), Some("T"), None, Some(5), None));
    assert created == Ok(Review(1, ["A"], "T", "N/A", 5, ""));
    assert GetById(store.reviews, 1) == created;

    var updated := store.Update(1, Input(None, None, None, Some(3), None));
    assert updated == Ok(Review(1, ["A"], "T", "N/A", 3, ""));
    assert store.reviews == [updated.value];

    var rejected := store.Update(1, Input(Some([]), None, None, None, None));
    assert rejected == Invalid(AuthorsEmpty);
    var missing := store.Update(2, Input(Some([]), None, None, None, None));
    assert missing == NotFound;

    var deleted := store.Delete(1);
    assert deleted == Ok(());
    assert GetById(store.reviews, 1) == NotFound;
  }
}
