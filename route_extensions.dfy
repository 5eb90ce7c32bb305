/** The helpers every route uses: reading a path parameter (or answering 400), resolving a user
    given by id or by username (or answering 400/404), and turning a failed database write into
    a response. */
module RouteExtensions {
  import opened Common
  import opened KotlinText
  import opened Table
  import opened Schema
  import opened Models
  import opened Http
  import opened DaoMapper
  import UserRepository

  /** Either the value a helper extracted, or the response it already sent. */
  datatype Extracted<T> = Found(value: T) | Rejected(response: Response)

  function MissingParam(name: string): Response {
    Response(BadRequest, Message("Missing '" + name + "' parameter"))
  }

  function InvalidParam(name: string): Response {
    Response(BadRequest, Message("Invalid or missing '" + name + "' parameter"))
  }

  /** `getParam`: the parameter when it is present and not blank, else 400. */
  function GetParam(params: Params, name: string): (r: Extracted<string>)
    ensures r.Found? <==> name in params && !IsBlank(params[name])
    ensures r.Found? ==> r.value == params[name] && !IsBlank(r.value)
    ensures r.Rejected? ==> r.response == MissingParam(name) && r.response.status == BadRequest
  {
    if name !in params || IsBlank(params[name]) then Rejected(MissingParam(name))
    else Found(params[name])
  }

  /** `getIntParam`: the parameter read as a 32-bit integer, else 400. */
  function GetIntParam(params: Params, name: string): (r: Extracted<int>)
    ensures r.Found? <==> name in params && ToIntOrNull(params[name]).Some?
    ensures r.Found? ==> r.value == ToIntOrNull(params[name]).value && InIntRange(r.value)
    ensures r.Rejected? ==> r.response == InvalidParam(name)
  {
    if name !in params then Rejected(InvalidParam(name))
    else match ToIntOrNull(params[name])
      case None => Rejected(InvalidParam(name))
      case Some(n) => Found(n)
  }

  /** Every 32-bit integer written in decimal is read back by `getIntParam`. */
  lemma GetIntParamRoundTrip(params: Params, name: string, n: int)
    requires InIntRange(n)
    ensures GetIntParam(params[name := IntToString(n)], name) == Found(n)
  {
    ParseIntToString(n);
  }

  /** `respondServerError`. */
  function ServerError(message: string): (r: Response)
    ensures r.status == InternalServerError && r.body == Message(message)
  {
    Response(InternalServerError, Message(message))
  }

  /** A failed operation: an `SQLException` from the driver, or any other exception, each with
      its message (which may be null). */
  datatype Failure = SqlException(message: Option<string>) | OtherException(message: Option<string>)

  /** Kotlin's string template of a nullable message. */
  function Shown(message: Option<string>): string {
    if message.Some? then message.value else "null"
  }

  /** Whether the driver's message mentions `needle`, ignoring case; false for a null message. */
  predicate MessageMentions(message: Option<string>, needle: string) {
    message.Some? && ContainsIgnoreCase(message.value, needle)
  }

  /** `respondSqlException(ex, customCheck)`: 409 for a database error, with "Database
      violation" when the custom check recognises it, "Database constraint violation" when the
      message mentions a constraint, and the message itself otherwise; 400 for any other
      exception. */
  function RespondSqlException(ex: Failure, customCheck: Option<string> -> bool): (r: Response)
    ensures ex.SqlException? <==> r.status == Conflict
    ensures ex.OtherException? <==> r.status == BadRequest
    ensures ex.SqlException? && customCheck(ex.message) ==> r.body == Message("Database violation")
    ensures (ex.SqlException? && !customCheck(ex.message) && MessageMentions(ex.message, "constraint"))
              ==> r.body == Message("Database constraint violation")
    ensures (ex.SqlException? && !customCheck(ex.message) && !MessageMentions(ex.message, "constraint"))
              ==> r.body == Message("Database error: " + Shown(ex.message))
    ensures ex.OtherException? ==> r.body == Message("Unexpected error: " + Shown(ex.message))
  {
    match ex
    case SqlException(message) =>
      var text :=
        if customCheck(message) then "Database violation"
        else if MessageMentions(message, "constraint") then "Database constraint violation"
        else "Database error: " + Shown(message);
      Response(Conflict, Message(text))
    case OtherException(message) =>
      Response(BadRequest, Message("Unexpected error: " + Shown(message)))
  }

  /** The default custom check, which recognises nothing. */
  predicate NoCustomCheck(message: Option<string>) {
    false
  }

  /** The custom check of booklist creation: the message mentions a unique constraint. */
  predicate UniqueConstraintCheck(message: Option<string>) {
    MessageMentions(message, "unique constraint")
  }

  /** A unique-constraint message is "Database violation" under the booklist check and
      "Database constraint violation" under the default one; a message that mentions no
      constraint is shown as it is under either. */
  lemma {:induction false} SqlMessagesClassified(message: Option<string>)
    ensures MessageMentions(message, "unique constraint") ==>
              && RespondSqlException(SqlException(message), UniqueConstraintCheck) == Response(Conflict, Message("Database violation"))
              && RespondSqlException(SqlException(message), NoCustomCheck) == Response(Conflict, Message("Database constraint violation"))
    ensures !MessageMentions(message, "constraint") ==>
              && RespondSqlException(SqlException(message), UniqueConstraintCheck)
                 == Response(Conflict, Message("Database error: " + Shown(message)))
              && RespondSqlException(SqlException(message), NoCustomCheck)
                 == Response(Conflict, Message("Database error: " + Shown(message)))
  {
    if MessageMentions(message, "unique constraint") {
      assert "unique constraint" == "unique " + "constraint";
      ContainsTail(message.value, "unique ", "constraint");
    }
  }

  const UserNotFound := Response(NotFound, Message("User not found"))

  /** The identifier reads as an integer (in any form `toIntOrNull` accepts) that is the id of
      an existing user. */
  predicate IdOfExisting(t: Tables, identifier: string) {
    ToIntOrNull(identifier).Some? && HasId(t.users, ToIntOrNull(identifier).value)
  }

  /** The user an identifier names: the user with that id when it reads as an integer and such
      a user exists, otherwise the user with that username. */
  function UserByIdentifier(t: Tables, identifier: string): (r: Option<Models.User>)
    ensures r.Some? ==> UserRow(r.value) in t.users
    ensures IdOfExisting(t, identifier) ==> r.Some? && r.value.id == ToIntOrNull(identifier).value
    ensures !IdOfExisting(t, identifier) ==>
              && (r.Some? <==> exists u | u in t.users :: u.cols.username == identifier)
              && (r.Some? ==> r.value.username == identifier)
  {
    var byId := match ToIntOrNull(identifier)
      case Some(n) => UserRepository.FindById(t, n)
      case None => None;
    if byId.Some? then byId else UserRepository.FindByUsername(t, identifier)
  }

  /** `resolveUserIdOrRespondNotFound`: 400 for a missing or blank identifier, 404 when it names
      no user, the user's id otherwise. */
  function ResolveUserId(t: Tables, params: Params, name: string): (r: Extracted<int>)
    ensures r.Found? ==> HasId(t.users, r.value)
    ensures r.Rejected? ==> r.response == MissingParam(name) || r.response == UserNotFound
    ensures (name !in params || IsBlank(params[name])) <==> r == Rejected(MissingParam(name))
    ensures r == Rejected(UserNotFound) <==>
              && name in params && !IsBlank(params[name])
              && !IdOfExisting(t, params[name])
              && !(exists u | u in t.users :: u.cols.username == params[name])
    ensures r.Found? && IdOfExisting(t, params[name]) ==> r.value == ToIntOrNull(params[name]).value
    ensures r.Found? && !IdOfExisting(t, params[name]) ==>
              exists u | u in t.users :: u.id == r.value && u.cols.username == params[name]
  {
    if name !in params || IsBlank(params[name]) then Rejected(MissingParam(name))
    else match UserByIdentifier(t, params[name])
      case None => Rejected(UserNotFound)
      case Some(u) => Found(u.id)
  }

  /** An existing user is resolved from its id written in decimal. */
  lemma ResolveById(t: Tables, params: Params, name: string, u: Row<UserCols>)
    requires UniqueIds(t.users) && u in t.users && InIntRange(u.id)
    ensures ResolveUserId(t, params[name := IntToString(u.id)], name) == Found(u.id)
  {
    ParseIntToString(u.id);
    IntToStringNotBlank(u.id);
    FindRow(t.users, u);
  }

  /** A user whose username does not read as the id of an existing user is resolved from its
      username; one whose username does is shadowed by that other user. */
  lemma ResolveByUsername(t: Tables, params: Params, name: string, u: Row<UserCols>)
    requires Valid(t) && u in t.users && !IsBlank(u.cols.username)
    ensures (ToIntOrNull(u.cols.username).None? || !HasId(t.users, ToIntOrNull(u.cols.username).value))
              ==> ResolveUserId(t, params[name := u.cols.username], name) == Found(u.id)
    ensures (ToIntOrNull(u.cols.username).Some? && HasId(t.users, ToIntOrNull(u.cols.username).value))
              ==> ResolveUserId(t, params[name := u.cols.username], name) == Found(ToIntOrNull(u.cols.username).value)
  {
    UserRepository.FindByUsernameUnique(t, u);
  }
}
