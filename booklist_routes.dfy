/** The `/booklists` routes. Reads are open to everyone; writes sit behind the session
    authentication and act for the session's user. */
module BooklistRoutes {
  import opened Common
  import opened KotlinText
  import opened Table
  import opened Schema
  import opened Models
  import opened DaoMapper
  import opened Http
  import opened RouteExtensions
  import opened BooklistRepository
  import Db

  const NotFoundResponse := Response(NotFound, Message("Booklist not found"))
  const NotOwner := Response(Forbidden, Message("You don't own this booklist"))

  function CreatedMessage(id: int): string {
    "Booklist created successfully - Booklist ID: " + IntToString(id)
  }

  /** The exception a failed booklist write raises. A column longer than its varchar raises
      `lengthFailure`, whatever the persistence library throws for such a value, before the
      statement reaches the database. Any other breach (the owner's unique list name, the
      foreign key) is the driver's `SQLException`, carrying `driverMessage`. */
  function WriteFailure(c: BooklistCols, lengthFailure: Failure, driverMessage: Option<string>): Failure {
    if !BooklistFits(c) then lengthFailure else SqlException(driverMessage)
  }

  /** How a failed booklist write is answered. With columns that fit, the driver's
      `SQLException` gives a 409. A column that is too long gives a 400 "Unexpected error"
      when the library raises something other than an `SQLException` for it, and a 409 when it
      raises an `SQLException`. */
  lemma WriteFailureAnswer(c: BooklistCols, lengthFailure: Failure, driverMessage: Option<string>,
                           customCheck: Option<string> -> bool)
    ensures BooklistFits(c) ==>
              RespondSqlException(WriteFailure(c, lengthFailure, driverMessage), customCheck).status == Conflict
    ensures !BooklistFits(c) && lengthFailure.OtherException? ==>
              RespondSqlException(WriteFailure(c, lengthFailure, driverMessage), customCheck)
              == Response(BadRequest, Message("Unexpected error: " + Shown(lengthFailure.message)))
    ensures !BooklistFits(c) && lengthFailure.SqlException? ==>
              RespondSqlException(WriteFailure(c, lengthFailure, driverMessage), customCheck).status == Conflict
  {
  }

  /** `GET /booklists`: every booklist. */
  function ListAll(t: Tables): (r: Response)
    ensures r == Response(OK, BooklistsJson(AllBooklists(t)))
    ensures |r.body.booklists| == |t.booklists|
  {
    Response(OK, BooklistsJson(AllBooklists(t)))
  }

  /** `GET /booklists/{id}`: 400 for an unreadable id, 404 for a missing list, the list otherwise. */
  function Show(t: Tables, params: Params): (r: Response)
    ensures GetIntParam(params, "id").Rejected? ==> r == InvalidParam("id")
    ensures GetIntParam(params, "id").Found? ==>
              var id := GetIntParam(params, "id").value;
              (HasId(t.booklists, id) <==> r.status == OK)
              && (r.status == OK ==> r.body == BooklistJson(GetBooklist(t, id).value) && r.body.booklist.id == id)
              && (!HasId(t.booklists, id) ==> r == NotFoundResponse)
  {
    match GetIntParam(params, "id")
    case Rejected(response) => response
    case Found(id) =>
      match GetBooklist(t, id)
      case None => NotFoundResponse
      case Some(b) => Response(OK, BooklistJson(b))
  }

  /** `GET /booklists/{id}/books`: as `Show`, with the list's books. */
  function ShowWithBooks(t: Tables, params: Params): (r: Response)
    ensures GetIntParam(params, "id").Rejected? ==> r == InvalidParam("id")
    ensures GetIntParam(params, "id").Found? ==>
              var id := GetIntParam(params, "id").value;
              (HasId(t.booklists, id) <==> r.status == OK)
              && (r.status == OK ==> r.body == BooklistWithBooksJson(GetBooklistWithBooks(t, id).value)
                                     && r.body.withBooks.id == id
                                     && r.body.withBooks.books == BooksOf(t.booklistBooks, id))
              && (!HasId(t.booklists, id) ==> r == NotFoundResponse)
  {
    match GetIntParam(params, "id")
    case Rejected(response) => response
    case Found(id) =>
      match GetBooklistWithBooks(t, id)
      case None => NotFoundResponse
      case Some(b) => Response(OK, BooklistWithBooksJson(b))
  }

  /** The id a creation message announces leads back to the list: `GET /booklists/{id}` with
      that id, as the client reads it, finds it. */
  lemma CreatedListIsShown(t: Tables, id: int)
    requires HasId(t.booklists, id) && InIntRange(id)
    ensures Show(t, map["id" := IntToString(id)]).status == OK
    ensures Show(t, map["id" := IntToString(id)]).body == BooklistJson(GetBooklist(t, id).value)
  {
    GetIntParamRoundTrip(map[], "id", id);
  }

  /** `POST /booklists`: 401 without a session; 201 announcing the new id when the list is
      stored; otherwise the database error, reported by `respondSqlException` with the
      unique-constraint check. */
  method Create(db: Db.Database, session: Session, req: BooklistRequest, lengthFailure: Failure,
                driverMessage: Option<string>)
    returns (resp: Response)
    requires db.Valid()
    modifies db
    ensures db.Valid()
    ensures session.None? ==> resp == NotAuthenticated
    ensures resp.status == Created <==>
              session.Some? && CanInsertBooklist(old(db.Tables()), RequestCols(session.value, req))
    ensures resp.status == Created ==>
              && |db.booklists| == |old(db.booklists)| + 1
              && resp.body == Message(CreatedMessage(db.booklists[|old(db.booklists)|].id))
              && !HasId(old(db.booklists), db.booklists[|old(db.booklists)|].id)
              && db.Tables() == old(db.Tables()).(booklists := old(db.booklists)
                                  + [Row(db.booklists[|old(db.booklists)|].id, RequestCols(session.value, req))])
              && GetBooklist(db.Tables(), db.booklists[|old(db.booklists)|].id)
                 == Some(BooklistOf(Row(db.booklists[|old(db.booklists)|].id, RequestCols(session.value, req))))
    ensures (session.Some? && resp.status != Created) ==>
              resp == RespondSqlException(WriteFailure(RequestCols(session.value, req), lengthFailure, driverMessage),
                                          UniqueConstraintCheck)
    ensures resp.status != Created ==> db.Tables() == old(db.Tables())
  {
    if session.None? {
      return NotAuthenticated;
    }
    var r := AddBooklist(db, session.value, req);
    if r.Ok? {
      resp := Response(Created, Message(CreatedMessage(r.value.id)));
    } else {
      resp := RespondSqlException(WriteFailure(RequestCols(session.value, req), lengthFailure, driverMessage),
                                  UniqueConstraintCheck);
    }
  }

  /** `POST /booklists/{id}/books`: 401 without a session, 400 for an unreadable id, 409
      without a body when the caller does not own the list, 201 when the book is added, and
      an unhandled exception (500) when the list already holds it or the id is too long. */
  method AddBook(db: Db.Database, session: Session, params: Params, req: BookRequest) returns (resp: Response)
    requires db.Valid()
    modifies db
    ensures db.Valid()
    ensures session.None? ==> resp == NotAuthenticated
    ensures (session.Some? && GetIntParam(params, "id").Rejected?) ==> resp == InvalidParam("id")
    ensures (session.Some? && GetIntParam(params, "id").Found?) ==>
              var id := GetIntParam(params, "id").value;
              && (resp == Response(Conflict, NoBody) <==> !OwnsList(old(db.Tables()), id, session.value))
              && (resp.status == Created <==>
                    OwnsList(old(db.Tables()), id, session.value)
                    && CanInsertBooklistBook(old(db.Tables()), BooklistBookCols(id, req.bookId)))
              && (resp.status == Created ==>
                    resp.body == Message("Book added to booklist successfully")
                    && |db.booklistBooks| == |old(db.booklistBooks)| + 1
                    && db.booklistBooks[..|old(db.booklistBooks)|] == old(db.booklistBooks)
                    && db.booklistBooks[|old(db.booklistBooks)|].cols == BooklistBookCols(id, req.bookId)
                    && !HasId(old(db.booklistBooks), db.booklistBooks[|old(db.booklistBooks)|].id)
                    && db.Tables() == old(db.Tables()).(booklistBooks := db.booklistBooks)
                    && GetBooklistWithBooks(db.Tables(), id).Some?
                    && req.bookId in GetBooklistWithBooks(db.Tables(), id).value.books)
              && (OwnsList(old(db.Tables()), id, session.value) && resp.status != Created ==> resp == Unhandled)
    ensures resp.status != Created ==> db.Tables() == old(db.Tables())
  {
    if session.None? {
      return NotAuthenticated;
    }
    var idParam := GetIntParam(params, "id");
    if idParam.Rejected? {
      return idParam.response;
    }
    var r := AddBookToBooklist(db, idParam.value, session.value, req.bookId);
    if r == Ok(true) {
      resp := Response(Created, Message("Book added to booklist successfully"));
    } else if r == Ok(false) {
      resp := Response(Conflict, NoBody);
    } else {
      resp := Unhandled;
    }
  }

  /** `PUT /booklists/{id}`: 401 without a session, 400 for an unreadable id, 403 when the
      caller does not own the list, 200 when it is updated, and the database error as
      `respondSqlException` reports it otherwise. */
  method Update(db: Db.Database, session: Session, params: Params, req: BooklistRequest, lengthFailure: Failure,
                driverMessage: Option<string>)
    returns (resp: Response)
    requires db.Valid()
    modifies db
    ensures db.Valid()
    ensures session.None? ==> resp == NotAuthenticated
    ensures (session.Some? && GetIntParam(params, "id").Rejected?) ==> resp == InvalidParam("id")
    ensures (session.Some? && GetIntParam(params, "id").Found?) ==>
              var id := GetIntParam(params, "id").value;
              && (resp == NotOwner <==> !OwnsList(old(db.Tables()), id, session.value))
              && (resp.status == OK <==>
                    OwnsList(old(db.Tables()), id, session.value)
                    && CanUpdateBooklist(old(db.Tables()), id, RequestCols(session.value, req)))
              && (resp.status == OK ==>
                    resp.body == Message("Booklist updated successfully")
                    && db.Tables() == old(db.Tables()).(booklists := Set(old(db.booklists), id, RequestCols(session.value, req)))
                    && GetBooklist(db.Tables(), id) == Some(BooklistOf(Row(id, RequestCols(session.value, req)))))
              && (OwnsList(old(db.Tables()), id, session.value) && resp.status != OK ==>
                    resp == RespondSqlException(WriteFailure(RequestCols(session.value, req), lengthFailure, driverMessage),
                                                NoCustomCheck))
    ensures resp.status != OK ==> db.Tables() == old(db.Tables())
  {
    if session.None? {
      return NotAuthenticated;
    }
    var idParam := GetIntParam(params, "id");
    if idParam.Rejected? {
      return idParam.response;
    }
    var r := BooklistRepository.UpdateBooklist(db, idParam.value, session.value, req);
    if r == Ok(true) {
      resp := Response(OK, Message("Booklist updated successfully"));
    } else if r == Ok(false) {
      resp := NotOwner;
    } else {
      resp := RespondSqlException(WriteFailure(RequestCols(session.value, req), lengthFailure, driverMessage),
                                  NoCustomCheck);
    }
  }

  /** `DELETE /booklists/{id}`: 401 without a session, 400 for an unreadable id, 403 unless the
      caller owns the list, and 200 once the list and its books are deleted. */
  method Remove(db: Db.Database, session: Session, params: Params) returns (resp: Response)
    requires db.Valid()
    modifies db
    ensures db.Valid()
    ensures session.None? ==> resp == NotAuthenticated
    ensures (session.Some? && GetIntParam(params, "id").Rejected?) ==> resp == InvalidParam("id")
    ensures (session.Some? && GetIntParam(params, "id").Found?) ==>
              var id := GetIntParam(params, "id").value;
              && (resp.status == OK <==> OwnsList(old(db.Tables()), id, session.value))
              && (resp.status == OK ==>
                    resp.body == Message("Booklist deleted successfully")
                    && db.Tables() == CascadeDeleteBooklists(old(db.Tables()), {id}))
              && (resp.status != OK ==> resp == NotOwner)
    ensures resp.status != OK ==> db.Tables() == old(db.Tables())
  {
    if session.None? {
      return NotAuthenticated;
    }
    var idParam := GetIntParam(params, "id");
    if idParam.Rejected? {
      return idParam.response;
    }
    var removed := RemoveBooklist(db, idParam.value, session.value);
    resp := if removed then Response(OK, Message("Booklist deleted successfully")) else NotOwner;
  }

  /** `DELETE /booklists/{id}/books/{bookId}`: 401 without a session, 400 for an unreadable id
      or a blank book id, 200 when an owned list held the book (which it no longer does), and
      403 otherwise, both for a list the caller does not own and for a book the list lacks. */
  method RemoveBook(db: Db.Database, session: Session, params: Params) returns (resp: Response)
    requires db.Valid()
    modifies db
    ensures db.Valid()
    ensures session.None? ==> resp == NotAuthenticated
    ensures (session.Some? && GetIntParam(params, "id").Rejected?) ==> resp == InvalidParam("id")
    ensures (session.Some? && GetIntParam(params, "id").Found? && GetParam(params, "bookId").Rejected?) ==>
              resp == MissingParam("bookId")
    ensures (session.Some? && GetIntParam(params, "id").Found? && GetParam(params, "bookId").Found?) ==>
              var id := GetIntParam(params, "id").value;
              var bookId := GetParam(params, "bookId").value;
              && (resp.status == OK <==>
                    OwnsList(old(db.Tables()), id, session.value) && bookId in BooksOf(old(db.booklistBooks), id))
              && (resp.status == OK ==> resp.body == Message("Book deleted from booklist successfully"))
              && (resp.status != OK ==> resp == NotOwner)
              && (OwnsList(old(db.Tables()), id, session.value) ==>
                    db.Tables() == old(db.Tables()).(booklistBooks := Db.DropBook(old(db.booklistBooks), id, bookId))
                    && GetBooklistWithBooks(db.Tables(), id).Some?
                    && bookId !in GetBooklistWithBooks(db.Tables(), id).value.books)
    ensures !(session.Some? && GetIntParam(params, "id").Found? && GetParam(params, "bookId").Found?
              && OwnsList(old(db.Tables()), GetIntParam(params, "id").value, session.value))
            ==> db.Tables() == old(db.Tables())
  {
    if session.None? {
      return NotAuthenticated;
    }
    var idParam := GetIntParam(params, "id");
    if idParam.Rejected? {
      return idParam.response;
    }
    var bookParam := GetParam(params, "bookId");
    if bookParam.Rejected? {
      return bookParam.response;
    }
    var removed := RemoveBookFromBooklist(db, idParam.value, session.value, bookParam.value);
    resp := if removed then Response(OK, Message("Book deleted from booklist successfully")) else NotOwner;
  }
}
