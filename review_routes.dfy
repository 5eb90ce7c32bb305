/** The `/reviews` routes: open reads (all, one, by user, by book) and session-gated writes,
    each write first checked by `validateReview`. */
module ReviewRoutes {
  import opened Common
  import opened KotlinText
  import opened Table
  import opened Schema
  import opened Models
  import opened Http
  import opened RouteExtensions
  import opened ReviewRepository
  import Db

  const NotFoundResponse := Response(NotFound, Message("Review not found"))
  const NotOwner := Response(Forbidden, Message("You don't own this review"))

  function CreatedMessage(id: int): string {
    "Review created successfully - Review ID: " + IntToString(id)
  }

  /** `validateReview`: a rate outside 0..10 is refused first, then a blank book id. */
  function Validate(req: ReviewRequest): (r: Option<Response>)
    ensures r.None? <==> 0 <= req.rate <= 10 && !IsBlank(req.bookId)
    ensures !(0 <= req.rate <= 10) ==> r == Some(Response(BadRequest, Message("Rate must be between 0 and 10")))
    ensures (0 <= req.rate <= 10 && IsBlank(req.bookId)) ==> r == Some(Response(BadRequest, Message("Book ID is required")))
  {
    if !(0 <= req.rate <= 10) then Some(Response(BadRequest, Message("Rate must be between 0 and 10")))
    else if IsBlank(req.bookId) then Some(Response(BadRequest, Message("Book ID is required")))
    else None
  }

  /** `GET /reviews`. */
  function ListAll(t: Tables): (r: Response)
    ensures r.status == OK && r.body == ReviewsJson(AllReviews(t))
  {
    Response(OK, ReviewsJson(AllReviews(t)))
  }

  /** `GET /reviews/{id}`: 400 for an unreadable id, 404 for a missing review, the review
      with its owner's username otherwise. */
  function Show(t: Tables, params: Params): (r: Response)
    requires Valid(t)
    ensures GetIntParam(params, "id").Rejected? ==> r == InvalidParam("id")
    ensures GetIntParam(params, "id").Found? ==>
              var id := GetIntParam(params, "id").value;
              (HasId(t.reviews, id) <==> r.status == OK)
              && (r.status == OK ==> r.body == ReviewJson(GetReview(t, id).value) && r.body.review.id == id)
              && (!HasId(t.reviews, id) ==> r == NotFoundResponse)
  {
    match GetIntParam(params, "id")
    case Rejected(response) => response
    case Found(id) =>
      GetReviewMeaning(t, id);
      match GetReview(t, id)
      case None => NotFoundResponse
      case Some(v) => Response(OK, ReviewJson(v))
  }

  /** `GET /reviews/user/{identifier}`: the reviews of the user the identifier names. */
  function ByUser(t: Tables, params: Params): (r: Response)
    ensures ResolveUserId(t, params, "identifier").Rejected? ==> r == ResolveUserId(t, params, "identifier").response
    ensures ResolveUserId(t, params, "identifier").Found? ==>
              r == Response(OK, ReviewsJson(ReviewsByUser(t, ResolveUserId(t, params, "identifier").value)))
  {
    match ResolveUserId(t, params, "identifier")
    case Rejected(response) => response
    case Found(userId) => Response(OK, ReviewsJson(ReviewsByUser(t, userId)))
  }

  /** `GET /reviews/book/{bookId}`: 400 for a blank book id, else the reviews of that book. */
  function ByBook(t: Tables, params: Params): (r: Response)
    ensures GetParam(params, "bookId").Rejected? ==> r == MissingParam("bookId")
    ensures GetParam(params, "bookId").Found? ==>
              var bookId := GetParam(params, "bookId").value;
              && r == Response(OK, ReviewsJson(ReviewsByBook(t, bookId)))
              && (forall v | v in r.body.reviews :: v.bookId == bookId)
              && (forall row | row in t.reviews && row.cols.bookId == bookId && Joined(t.users, row).Some? ::
                    Joined(t.users, row).value in r.body.reviews)
  {
    match GetParam(params, "bookId")
    case Rejected(response) => response
    case Found(bookId) =>
      var reviews := ReviewsByBook(t, bookId);
      forall v | v in reviews ensures v.bookId == bookId {
        ReviewsByBookExact(t, bookId, v);
      }
      forall row | row in t.reviews && row.cols.bookId == bookId && Joined(t.users, row).Some?
        ensures Joined(t.users, row).value in reviews
      {
        ReviewsByBookExact(t, bookId, Joined(t.users, row).value);
      }
      Response(OK, ReviewsJson(reviews))
  }

  /** `POST /reviews`: 401 without a session, the validation error, 201 announcing the new id,
      and an unhandled exception (500) when a column is too long. */
  method Create(db: Db.Database, session: Session, req: ReviewRequest) returns (resp: Response)
    requires db.Valid()
    modifies db
    ensures db.Valid()
    ensures session.None? ==> resp == NotAuthenticated
    ensures (session.Some? && Validate(req).Some?) ==> resp == Validate(req).value
    ensures resp.status == Created <==>
              session.Some? && Validate(req).None? && CanWriteReview(old(db.Tables()), RequestCols(session.value, req))
    ensures resp.status == Created ==>
              && |db.reviews| == |old(db.reviews)| + 1
              && resp.body == Message(CreatedMessage(db.reviews[|old(db.reviews)|].id))
              && !HasId(old(db.reviews), db.reviews[|old(db.reviews)|].id)
              && db.Tables() == old(db.Tables()).(reviews := old(db.reviews)
                                  + [Row(db.reviews[|old(db.reviews)|].id, RequestCols(session.value, req))])
              && UsernameOf(old(db.Tables()), session.value).Some?
              && GetReview(db.Tables(), db.reviews[|old(db.reviews)|].id)
                 == Some(RequestReview(db.reviews[|old(db.reviews)|].id, UsernameOf(old(db.Tables()), session.value).value, req))
    ensures (session.Some? && Validate(req).None? && resp.status != Created) ==> resp == Unhandled
    ensures resp.status != Created ==> db.Tables() == old(db.Tables())
  {
    if session.None? {
      return NotAuthenticated;
    }
    var invalid := Validate(req);
    if invalid.Some? {
      return invalid.value;
    }
    var r := AddReview(db, session.value, req);
    if r.Ok? {
      resp := Response(Created, Message(CreatedMessage(r.value.id)));
    } else {
      resp := Unhandled;
    }
  }

  /** `PUT /reviews/{id}`: 401 without a session, 400 for an unreadable id, the validation
      error, 403 unless the caller owns the review, 200 when it is overwritten, and an
      unhandled exception (500) when a column is too long. */
  method Update(db: Db.Database, session: Session, params: Params, req: ReviewRequest) returns (resp: Response)
    requires db.Valid()
    modifies db
    ensures db.Valid()
    ensures session.None? ==> resp == NotAuthenticated
    ensures (session.Some? && GetIntParam(params, "id").Rejected?) ==> resp == InvalidParam("id")
    ensures (session.Some? && GetIntParam(params, "id").Found? && Validate(req).Some?) ==> resp == Validate(req).value
    ensures (session.Some? && GetIntParam(params, "id").Found? && Validate(req).None?) ==>
              var id := GetIntParam(params, "id").value;
              && (resp == NotOwner <==> !OwnsReview(old(db.Tables()), id, session.value))
              && (resp.status == OK <==>
                    OwnsReview(old(db.Tables()), id, session.value)
                    && CanWriteReview(old(db.Tables()), RequestCols(session.value, req)))
              && (resp.status == OK ==>
                    resp.body == Message("Review updated successfully")
                    && db.Tables() == old(db.Tables()).(reviews := Set(old(db.reviews), id, RequestCols(session.value, req))))
              && (OwnsReview(old(db.Tables()), id, session.value) && resp.status != OK ==> resp == Unhandled)
    ensures resp.status != OK ==> db.Tables() == old(db.Tables())
  {
    if session.None? {
      return NotAuthenticated;
    }
    var idParam := GetIntParam(params, "id");
    if idParam.Rejected? {
      return idParam.response;
    }
    var invalid := Validate(req);
    if invalid.Some? {
      return invalid.value;
    }
    var r := UpdateReview(db, idParam.value, session.value, req);
    if r == Ok(true) {
      resp := Response(OK, Message("Review updated successfully"));
    } else if r == Ok(false) {
      resp := NotOwner;
    } else {
      resp := Unhandled;
    }
  }

  /** `DELETE /reviews/{id}`: 401 without a session, 400 for an unreadable id, 200 once an
      owned review is deleted, 403 otherwise. */
  method Remove(db: Db.Database, session: Session, params: Params) returns (resp: Response)
    requires db.Valid()
    modifies db
    ensures db.Valid()
    ensures session.None? ==> resp == NotAuthenticated
    ensures (session.Some? && GetIntParam(params, "id").Rejected?) ==> resp == InvalidParam("id")
    ensures (session.Some? && GetIntParam(params, "id").Found?) ==>
              var id := GetIntParam(params, "id").value;
              && (resp.status == OK <==> OwnsReview(old(db.Tables()), id, session.value))
              && (resp.status == OK ==>
                    resp.body == Message("Review deleted successfully")
                    && db.Tables() == old(db.Tables()).(reviews := Delete(old(db.reviews), id)))
              && (resp.status != OK ==> resp == NotOwner)
    ensures resp.status != OK ==> db.Tables() == old(db.Tables())
  {
    if session.None? {
      return NotAuthenticated;
    }
    var idParam := GetIntParam(params, "id");
    if idParam.Rejected? {
      return idParam.response;
    }
    var deleted := DeleteReview(db, idParam.value, session.value);
    resp := if deleted then Response(OK, Message("Review deleted successfully")) else NotOwner;
  }
}
