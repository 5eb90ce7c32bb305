/** `ReviewRepository`: reviews are read through an inner join with `users`, which supplies
    the owner's username; writes are gated on ownership. */
module ReviewRepository {
  import opened Common
  import opened Table
  import opened Schema
  import opened Models
  import Db

  /** One joined result row: the review's columns with its owner's username, or nothing when
      the inner join finds no owner. */
  function Joined(users: seq<Row<UserCols>>, row: Row<ReviewCols>): (r: Option<Review>)
    ensures r.Some? <==> HasId(users, row.cols.userId)
    ensures r.Some? ==> exists u | u in users :: u.id == row.cols.userId && r.value.username == u.cols.username
  {
    match Find(users, row.cols.userId)
    case None => None
    case Some(u) =>
      Some(Review(row.id, row.cols.bookId, u.username, row.cols.content, row.cols.rate,
                  row.cols.favorite, row.cols.reviewedAt))
  }

  /** `reviews innerJoin users`, in the order of the review rows. */
  function {:induction false} JoinUsers(users: seq<Row<UserCols>>, rows: seq<Row<ReviewCols>>): (r: seq<Review>)
    ensures |r| <= |rows|
    ensures forall v :: v in r <==> exists row | row in rows :: Joined(users, row) == Some(v)
    ensures (forall row | row in rows :: HasId(users, row.cols.userId)) ==>
              |r| == |rows| && forall i | 0 <= i < |rows| :: Joined(users, rows[i]) == Some(r[i])
  {
    if rows == [] then []
    else
      var rest := JoinUsers(users, rows[1..]);
      assert forall row | row in rows :: row == rows[0] || row in rows[1..];
      match Joined(users, rows[0])
      case None => rest
      case Some(v) => [v] + rest
  }

  /** `review(id)`: absent for a missing id; otherwise the review with its owner's username. */
  function GetReview(t: Tables, reviewId: int): (r: Option<Review>)
    ensures r.Some? ==> r.value.id == reviewId
                        && exists row | row in t.reviews :: row.id == reviewId && Joined(t.users, row) == r
  {
    match Find(t.reviews, reviewId)
    case None => None
    case Some(c) => Joined(t.users, Row(reviewId, c))
  }

  /** `allReviews`. */
  function AllReviews(t: Tables): seq<Review> {
    JoinUsers(t.users, t.reviews)
  }

  /** `getReviewsByUserId(userId)`. */
  function ReviewsByUser(t: Tables, userId: int): seq<Review> {
    JoinUsers(t.users, Filter(t.reviews, (v: Row<ReviewCols>) => v.cols.userId == userId))
  }

  /** `getReviewsById(bookId)`: the reviews of one book. */
  function ReviewsByBook(t: Tables, bookId: string): seq<Review> {
    JoinUsers(t.users, Filter(t.reviews, (v: Row<ReviewCols>) => v.cols.bookId == bookId))
  }

  /** The username of user `userId`, if that user exists. */
  function UsernameOf(t: Tables, userId: int): Option<string> {
    match Find(t.users, userId)
    case None => None
    case Some(u) => Some(u.username)
  }

  /** Under the schema every review has an owner, so `review(id)` is absent exactly when no
      review has that id, and otherwise carries its owner's username. */
  lemma GetReviewMeaning(t: Tables, reviewId: int)
    requires Valid(t)
    ensures GetReview(t, reviewId).Some? <==> HasId(t.reviews, reviewId)
    ensures forall row | row in t.reviews && row.id == reviewId ::
              GetReview(t, reviewId).value.username == UsernameOf(t, row.cols.userId).value
              && GetReview(t, reviewId).value.bookId == row.cols.bookId
  {
    forall row | row in t.reviews && row.id == reviewId
      ensures GetReview(t, reviewId) == Joined(t.users, row)
    {
      FindRow(t.reviews, row);
    }
  }

  /** `allReviews` lists every review once, in insertion order. */
  lemma AllReviewsInOrder(t: Tables)
    requires Valid(t)
    ensures |AllReviews(t)| == |t.reviews|
    ensures forall i | 0 <= i < |t.reviews| :: AllReviews(t)[i].id == t.reviews[i].id
  {
    assert forall row | row in t.reviews :: HasId(t.users, row.cols.userId);
  }

  /** `getReviewsByUserId(u)` holds exactly the reviews owned by `u`. */
  lemma ReviewsByUserExact(t: Tables, userId: int, v: Review)
    requires Valid(t)
    ensures v in ReviewsByUser(t, userId)
            <==> exists row | row in t.reviews :: row.cols.userId == userId && Joined(t.users, row) == Some(v)
  {
  }

  /** `getReviewsById(b)` holds exactly the reviews of book `b`. */
  lemma ReviewsByBookExact(t: Tables, bookId: string, v: Review)
    ensures v in ReviewsByBook(t, bookId)
            <==> exists row | row in t.reviews :: row.cols.bookId == bookId && Joined(t.users, row) == Some(v)
    ensures v in ReviewsByBook(t, bookId) ==> v.bookId == bookId
  {
  }

  /** The gate of every write: the review exists and `userId` owns it. */
  predicate OwnsReview(t: Tables, reviewId: int, userId: int) {
    var found := Find(t.reviews, reviewId);
    found.Some? && found.value.userId == userId
  }

  /** The columns a request stores for a review owned by `userId`. */
  function RequestCols(userId: int, req: ReviewRequest): ReviewCols {
    ReviewCols(userId, req.bookId, req.content, req.rate, req.favorite, req.reviewedAt)
  }

  /** The record a request yields once stored with id `id` by a user called `username`. */
  function RequestReview(id: int, username: string, req: ReviewRequest): Review {
    Review(id, req.bookId, username, req.content, req.rate, req.favorite, req.reviewedAt)
  }

  /** A review row stored by an existing user reads back as the request with that user's name. */
  lemma ReadBack(t: Tables, id: int, userId: int, req: ReviewRequest)
    requires UniqueIds(t.reviews) && UniqueIds(t.users) && Row(id, RequestCols(userId, req)) in t.reviews
    requires HasId(t.users, userId)
    ensures UsernameOf(t, userId).Some?
    ensures GetReview(t, id) == Some(RequestReview(id, UsernameOf(t, userId).value, req))
  {
    FindRow(t.reviews, Row(id, RequestCols(userId, req)));
  }

  /** After overwriting review `id` with a request of its owner, it reads back as that request. */
  lemma ReadBackAfterSet(t: Tables, id: int, userId: int, req: ReviewRequest)
    requires UniqueIds(t.reviews) && UniqueIds(t.users) && HasId(t.reviews, id) && HasId(t.users, userId)
    ensures UsernameOf(t, userId).Some?
    ensures GetReview(t.(reviews := Set(t.reviews, id, RequestCols(userId, req))), id)
            == Some(RequestReview(id, UsernameOf(t, userId).value, req))
  {
    SetUnique(t.reviews, id, RequestCols(userId, req));
    assert Row(id, RequestCols(userId, req)) in Set(t.reviews, id, RequestCols(userId, req));
    ReadBack(t.(reviews := Set(t.reviews, id, RequestCols(userId, req))), id, userId, req);
  }

  /** `addReview`: inserts the review and answers it with the username of its owner; raises
      when the owner does not exist or a column is too long. */
  method AddReview(db: Db.Database, userId: int, req: ReviewRequest) returns (r: Attempt<Review>)
    requires db.Valid()
    modifies db
    ensures db.Valid()
    ensures r.Ok? <==> CanWriteReview(old(db.Tables()), RequestCols(userId, req))
    ensures r.Ok? ==>
              && UsernameOf(old(db.Tables()), userId).Some?
              && r.value == RequestReview(r.value.id, UsernameOf(old(db.Tables()), userId).value, req)
              && !HasId(old(db.reviews), r.value.id)
              && db.Tables() == old(db.Tables()).(reviews := old(db.reviews) + [Row(r.value.id, RequestCols(userId, req))])
              && GetReview(db.Tables(), r.value.id) == Some(r.value)
    ensures r.ConstraintViolation? ==> db.Tables() == old(db.Tables())
  {
    var c := RequestCols(userId, req);
    var id := db.InsertReview(c);
    if id.Some? {
      // the user exists: the foreign key was just checked
      var username := UsernameOf(db.Tables(), userId);
      assert Row(id.value, c) in db.reviews;
      ReadBack(db.Tables(), id.value, userId, req);
      r := Ok(RequestReview(id.value, username.value, req));
    } else {
      r := ConstraintViolation;
    }
  }

  /** `updateReview`: `Ok(false)` and no change unless the caller owns the review; otherwise
      all five request fields overwrite the row (the owner stays), raising when a column is
      too long. */
  method UpdateReview(db: Db.Database, reviewId: int, userId: int, req: ReviewRequest) returns (r: Attempt<bool>)
    requires db.Valid()
    modifies db
    ensures db.Valid()
    ensures r == Ok(false) <==> !OwnsReview(old(db.Tables()), reviewId, userId)
    ensures r == Ok(true) <==> OwnsReview(old(db.Tables()), reviewId, userId)
                               && CanWriteReview(old(db.Tables()), RequestCols(userId, req))
    ensures r == Ok(true) ==>
              && db.Tables() == old(db.Tables()).(reviews := Set(old(db.reviews), reviewId, RequestCols(userId, req)))
              && UsernameOf(old(db.Tables()), userId).Some?
              && GetReview(db.Tables(), reviewId) == Some(RequestReview(reviewId, UsernameOf(old(db.Tables()), userId).value, req))
    ensures r != Ok(true) ==> db.Tables() == old(db.Tables())
  {
    var found := Find(db.reviews, reviewId);
    if found.Some? && found.value.userId == userId {
      ghost var t := db.Tables();
      var c := RequestCols(userId, req);
      var ok := db.UpdateReview(reviewId, c);
      if ok {
        ReadBackAfterSet(t, reviewId, userId, req);
        r := Ok(true);
      } else {
        r := ConstraintViolation;
      }
    } else {
      r := Ok(false);
    }
  }

  /** `deleteReview`: deletes an owned review and nothing else. */
  method DeleteReview(db: Db.Database, reviewId: int, userId: int) returns (deleted: bool)
    requires db.Valid()
    modifies db
    ensures db.Valid()
    ensures deleted <==> OwnsReview(old(db.Tables()), reviewId, userId)
    ensures deleted ==> db.Tables() == old(db.Tables()).(reviews := Delete(old(db.reviews), reviewId))
                        && GetReview(db.Tables(), reviewId).None?
    ensures !deleted ==> db.Tables() == old(db.Tables())
  {
    var found := Find(db.reviews, reviewId);
    if found.Some? && found.value.userId == userId {
      db.DeleteReview(reviewId);
      deleted := true;
    } else {
      deleted := false;
    }
  }
}
