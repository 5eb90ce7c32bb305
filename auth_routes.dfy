/** The account routes: register, login, logout, the caller's own profile (`/me`) and the
    public view of a user. Password hashing and checking are parameters: `hash` turns a
    password into the stored hash, `verify(password, hash)` checks one against the other. */
module AuthRoutes {
  import opened Common
  import opened Table
  import opened Schema
  import opened Models
  import opened DaoMapper
  import opened Http
  import opened RouteExtensions
  import opened UserRepository
  import Db

  const UsernameTaken := Response(Conflict, PlainText("Username already exists"))
  const InvalidCredentials := Response(Unauthorized, PlainText("Invalid credentials"))
  const ProfileNotFound := Response(NotFound, Error("Profile not found"))

  /** `GET /me`: 401 without a session, 404 when the session's user is gone, the profile
      otherwise. Nothing here is behind the authentication plugin: the handler checks the
      session itself and answers with the same 401. */
  function Me(t: Tables, session: Session): (r: Response)
    ensures session.None? ==> r == NotAuthenticated
    ensures session.Some? ==> (r.status == OK <==> HasId(t.users, session.value))
    ensures session.Some? && r.status == OK ==> r.body == ProfileJson(Profile(t, session.value).value)
    ensures session.Some? && r.status != OK ==> r == ProfileNotFound
  {
    match session
    case None => NotAuthenticated
    case Some(userId) =>
      match Profile(t, userId)
      case None => ProfileNotFound
      case Some(p) => Response(OK, ProfileJson(p))
  }

  /** `POST /register`: 409 in plain text when the username is taken; otherwise the user is
      created with the hash of the password and the session is set to it, or, when the email
      is taken or a column is too long, the exception goes unhandled (500). */
  method Register(db: Db.Database, req: RegisterRequest, hash: string -> string)
    returns (resp: Response, change: SessionChange)
    requires db.Valid()
    modifies db
    ensures db.Valid()
    ensures FindByUsername(old(db.Tables()), req.username).Some? ==> resp == UsernameTaken && change == Keep
    ensures resp.status == OK <==>
              FindByUsername(old(db.Tables()), req.username).None?
              && CanInsertUser(old(db.Tables()), UserCols(req.email, req.username, hash(req.password)))
    ensures resp.status == OK ==>
              && resp.body == Message("Registered")
              && change.SetTo?
              && !HasId(old(db.users), change.userId)
              && db.Tables() == old(db.Tables()).(users := old(db.users)
                                  + [Row(change.userId, UserCols(req.email, req.username, hash(req.password)))])
              && Me(db.Tables(), Some(change.userId)) == Response(OK, ProfileJson(UserProfile(change.userId, req.username, [], [], [])))
    ensures (FindByUsername(old(db.Tables()), req.username).None? && resp.status != OK) ==> resp == Unhandled && change == Keep
    ensures resp.status != OK ==> db.Tables() == old(db.Tables())
  {
    if FindByUsername(db.Tables(), req.username).Some? {
      return UsernameTaken, Keep;
    }
    ghost var t := db.Tables();
    var c := UserCols(req.email, req.username, hash(req.password));
    var r := Create(db, req.email, req.username, hash(req.password));
    if r.Ok? {
      NewUserProfileEmpty(t, r.value.id, c);
      resp, change := Response(OK, Message("Registered")), SetTo(r.value.id);
    } else {
      resp, change := Unhandled, Keep;
    }
  }

  /** `POST /login`: the session is set to the user when its stored hash verifies the
      password; every failure, unknown user or wrong password alike, gets the same 401. */
  function Login(t: Tables, req: LoginRequest, verify: (string, string) -> bool): (r: (Response, SessionChange))
    ensures r.0.status == OK ==>
              r.0.body == Message("Logged in") && r.1.SetTo?
              && exists u | u in t.users :: u.id == r.1.userId && u.cols.username == req.username
                                           && verify(req.password, u.cols.passwordHash)
    ensures r.0.status != OK ==> r == (InvalidCredentials, Keep)
  {
    match FindByUsername(t, req.username)
    case None => (InvalidCredentials, Keep)
    case Some(u) =>
      if !verify(req.password, u.passwordHash) then (InvalidCredentials, Keep)
      else
        assert UserRow(u) in t.users;
        (Response(OK, Message("Logged in")), SetTo(u.id))
  }

  /** Under the unique index on `username`, login succeeds exactly when the user exists and its
      stored hash verifies the password. */
  lemma LoginMeaning(t: Tables, req: LoginRequest, verify: (string, string) -> bool)
    requires Valid(t)
    ensures Login(t, req, verify).0.status == OK
            <==> exists u | u in t.users :: u.cols.username == req.username && verify(req.password, u.cols.passwordHash)
  {
    forall u | u in t.users && u.cols.username == req.username && verify(req.password, u.cols.passwordHash)
      ensures Login(t, req, verify).0.status == OK
    {
      FindByUsernameUnique(t, u);
    }
  }

  /** A user just registered can log in with the same username and password, whenever the
      verifier accepts a password against its own hash, and the session names that user. */
  lemma LoginAfterRegister(t: Tables, id: int, req: RegisterRequest, hash: string -> string,
                           verify: (string, string) -> bool)
    requires Valid(t) && !HasId(t.users, id)
    requires CanInsertUser(t, UserCols(req.email, req.username, hash(req.password)))
    requires verify(req.password, hash(req.password))
    ensures Login(t.(users := t.users + [Row(id, UserCols(req.email, req.username, hash(req.password)))]),
                  LoginRequest(req.username, req.password), verify)
            == (Response(OK, Message("Logged in")), SetTo(id))
  {
    CreatedReadsBack(t, id, UserCols(req.email, req.username, hash(req.password)));
  }

  /** `GET /logout`: clears the session (and expires its cookie). */
  function Logout(): (r: (Response, SessionChange))
    ensures r.0.status == OK && r.1 == Clear
  {
    (Response(OK, Message("Logged out")), Clear)
  }

  /** `GET /users/{username}`: 400 for a blank username, 404 without a body for an unknown
      one, and otherwise only the username, never the email or the password hash. */
  function PublicProfile(t: Tables, params: Params): (r: Response)
    ensures GetParam(params, "username").Rejected? ==> r == MissingParam("username")
    ensures GetParam(params, "username").Found? ==>
              var name := GetParam(params, "username").value;
              && (r.status == OK <==> exists u | u in t.users :: u.cols.username == name)
              && (r.status == OK ==> r.body == PublicUserJson(PublicUser(name)))
              && (r.status != OK ==> r == Response(NotFound, NoBody))
  {
    match GetParam(params, "username")
    case Rejected(response) => response
    case Found(name) =>
      match FindByUsername(t, name)
      case None => Response(NotFound, NoBody)
      case Some(u) => Response(OK, PublicUserJson(PublicUser(u.username)))
  }
}
