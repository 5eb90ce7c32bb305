/** The `/quotes` routes: open reads and session-gated writes. A failed write is answered with
    a 500 whose message names the operation. */
module QuoteRoutes {
  import opened Common
  import opened Table
  import opened Schema
  import opened Models
  import opened Http
  import opened RouteExtensions
  import opened QuoteRepository
  import Db

  const NotFoundResponse := Response(NotFound, Message("Quote not found"))
  const NotOwner := Response(Forbidden, Message("You don't own this quote"))

  /** `GET /quotes`. */
  function ListAll(t: Tables): (r: Response)
    ensures r == Response(OK, QuotesJson(AllQuotes(t)))
    ensures |r.body.quotes| == |t.quotes|
  {
    Response(OK, QuotesJson(AllQuotes(t)))
  }

  /** `GET /quotes/{id}`: 400 for an unreadable id, 404 for a missing quote, the quote otherwise. */
  function Show(t: Tables, params: Params): (r: Response)
    ensures GetIntParam(params, "id").Rejected? ==> r == InvalidParam("id")
    ensures GetIntParam(params, "id").Found? ==>
              var id := GetIntParam(params, "id").value;
              (HasId(t.quotes, id) <==> r.status == OK)
              && (r.status == OK ==> r.body == QuoteJson(GetQuote(t, id).value) && r.body.quote.id == id)
              && (!HasId(t.quotes, id) ==> r == NotFoundResponse)
  {
    match GetIntParam(params, "id")
    case Rejected(response) => response
    case Found(id) =>
      match GetQuote(t, id)
      case None => NotFoundResponse
      case Some(q) => Response(OK, QuoteJson(q))
  }

  /** `POST /quotes`: 401 without a session, 201 once the quote is stored, and 500 "Failed to
      create quote" when the owner is missing or the content too long. */
  method Create(db: Db.Database, session: Session, req: QuoteRequest) returns (resp: Response)
    requires db.Valid()
    modifies db
    ensures db.Valid()
    ensures session.None? ==> resp == NotAuthenticated
    ensures resp.status == Created <==>
              session.Some? && CanWriteQuote(old(db.Tables()), QuoteCols(session.value, req.content))
    ensures resp.status == Created ==>
              && resp.body == Message("Quote created successfully")
              && |db.quotes| == |old(db.quotes)| + 1
              && db.quotes[..|old(db.quotes)|] == old(db.quotes)
              && db.quotes[|old(db.quotes)|].cols == QuoteCols(session.value, req.content)
              && !HasId(old(db.quotes), db.quotes[|old(db.quotes)|].id)
              && db.Tables() == old(db.Tables()).(quotes := db.quotes)
    ensures (session.Some? && resp.status != Created) ==> resp == ServerError("Failed to create quote")
    ensures resp.status != Created ==> db.Tables() == old(db.Tables())
  {
    if session.None? {
      return NotAuthenticated;
    }
    var r := AddQuote(db, session.value, req);
    resp := if r.Ok? then Response(Created, Message("Quote created successfully"))
            else ServerError("Failed to create quote");
  }

  /** `PUT /quotes/{id}`: 401 without a session, 400 for an unreadable id, 403 unless the
      caller owns the quote, 200 once its content is replaced, 500 "Failed to update quote"
      when the content is too long. */
  method Update(db: Db.Database, session: Session, params: Params, req: QuoteRequest) returns (resp: Response)
    requires db.Valid()
    modifies db
    ensures db.Valid()
    ensures session.None? ==> resp == NotAuthenticated
    ensures (session.Some? && GetIntParam(params, "id").Rejected?) ==> resp == InvalidParam("id")
    ensures (session.Some? && GetIntParam(params, "id").Found?) ==>
              var id := GetIntParam(params, "id").value;
              && (resp == NotOwner <==> !OwnsQuote(old(db.Tables()), id, session.value))
              && (resp.status == OK <==>
                    OwnsQuote(old(db.Tables()), id, session.value) && |req.content| <= QuoteContentLength)
              && (resp.status == OK ==>
                    resp.body == Message("Quote updated successfully")
                    && db.Tables() == old(db.Tables()).(quotes := Set(old(db.quotes), id, QuoteCols(session.value, req.content)))
                    && GetQuote(db.Tables(), id) == Some(Quote(id, session.value, req.content)))
              && (OwnsQuote(old(db.Tables()), id, session.value) && resp.status != OK ==>
                    resp == ServerError("Failed to update quote"))
    ensures resp.status != OK ==> db.Tables() == old(db.Tables())
  {
    if session.None? {
      return NotAuthenticated;
    }
    var idParam := GetIntParam(params, "id");
    if idParam.Rejected? {
      return idParam.response;
    }
    var r := EditQuote(db, idParam.value, session.value, req);
    if r == Ok(true) {
      resp := Response(OK, Message("Quote updated successfully"));
    } else if r == Ok(false) {
      resp := NotOwner;
    } else {
      resp := ServerError("Failed to update quote");
    }
  }

  /** `DELETE /quotes/{id}`: 401 without a session, 400 for an unreadable id, 200 once an owned
      quote is deleted, 403 otherwise. */
  method Remove(db: Db.Database, session: Session, params: Params) returns (resp: Response)
    requires db.Valid()
    modifies db
    ensures db.Valid()
    ensures session.None? ==> resp == NotAuthenticated
    ensures (session.Some? && GetIntParam(params, "id").Rejected?) ==> resp == InvalidParam("id")
    ensures (session.Some? && GetIntParam(params, "id").Found?) ==>
              var id := GetIntParam(params, "id").value;
              && (resp.status == OK <==> OwnsQuote(old(db.Tables()), id, session.value))
              && (resp.status == OK ==>
                    resp.body == Message("Quote deleted successfully")
                    && db.Tables() == old(db.Tables()).(quotes := Delete(old(db.quotes), id))
                    && GetQuote(db.Tables(), id).None?)
              && (resp.status != OK ==> resp == NotOwner)
    ensures resp.status != OK ==> db.Tables() == old(db.Tables())
  {
    if session.None? {
      return NotAuthenticated;
    }
    var idParam := GetIntParam(params, "id");
    if idParam.Rejected? {
      return idParam.response;
    }
    var deleted := DeleteQuote(db, idParam.value, session.value);
    resp := if deleted then Response(OK, Message("Quote deleted successfully")) else NotOwner;
  }
}
