/** The parts of an HTTP exchange the handlers decide: the status, the JSON (or plain) body and
    what happens to the session cookie. Parameters are the request's path and query values by
    name; the session is the user id it carries, if any. */
module Http {
  import opened Common
  import opened Models

  /** The statuses the handlers answer with: 200, 201, 400, 401, 403, 404, 409 and 500. */
  datatype Status = OK | Created | BadRequest | Unauthorized | Forbidden | NotFound | Conflict | InternalServerError


  /** A response body: `{"message": …}`, `{"error": …}`, a bare string, or a serialised model. */
  datatype Body =
    | NoBody
    | Message(text: string)
    | Error(text: string)
    | PlainText(text: string)
    | BooklistsJson(booklists: seq<Booklist>)
    | BooklistJson(booklist: Booklist)
    | BooklistWithBooksJson(withBooks: BooklistWithBooks)
    | ReviewsJson(reviews: seq<Review>)
    | ReviewJson(review: Review)
    | QuotesJson(quotes: seq<Quote>)
    | QuoteJson(quote: Quote)
    | FollowsJson(follows: seq<Follow>)
    | IsFollowingJson(isFollowing: bool)
    | ProfileJson(profile: UserProfile)
    | PublicUserJson(user: PublicUser)

  datatype Response = Response(status: Status, body: Body)

  /** An uncaught exception: the server answers 500 without a body of the handler's choosing. */
  const Unhandled := Response(InternalServerError, NoBody)

  /** The challenge of the session authentication: every route that requires a session answers
      this when the request carries none. */
  const NotAuthenticated := Response(Unauthorized, Error("Not authenticated"))

  type Params = map<string, string>

  /** The user id the session cookie carries; `None` when there is no valid session. */
  type Session = Option<int>

  /** What a handler does to the session cookie. */
  datatype SessionChange = Keep | SetTo(userId: int) | Clear
}
