/** `UserRepository`: user lookups, the profile that gathers a user's lists, quotes and
    reviews, password checking against a stored hash, and user writes. */
module UserRepository {
  import opened Common
  import opened Table
  import opened Schema
  import opened Models
  import opened DaoMapper
  import ReviewRepository
  import Db

  /** `getAllUsers`: every user, in table order. */
  function AllUsers(t: Tables): (r: seq<User>)
    ensures |r| == |t.users|
    ensures forall i | 0 <= i < |r| :: UserRow(r[i]) == t.users[i]
  {
    Map(t.users, UserOf)
  }

  /** `findById`: absent exactly when no user has that id. */
  function FindById(t: Tables, id: int): (r: Option<User>)
    ensures r.Some? <==> HasId(t.users, id)
    ensures r.Some? ==> r.value.id == id && UserRow(r.value) in t.users
  {
    match Find(t.users, id)
    case None => None
    case Some(c) => Some(UserOf(Row(id, c)))
  }

  /** `findByUsername`: the first user with that username, if any. */
  function FindByUsername(t: Tables, username: string): (r: Option<User>)
    ensures r.Some? <==> exists u | u in t.users :: u.cols.username == username
    ensures r.Some? ==> r.value.username == username && UserRow(r.value) in t.users
  {
    var named := Filter(t.users, (u: Row<UserCols>) => u.cols.username == username);
    if named == [] then None
    else
      assert named[0] in named;
      Some(UserOf(named[0]))
  }

  /** Under the unique index on `username` the first match is the only one. */
  lemma FindByUsernameUnique(t: Tables, u: Row<UserCols>)
    requires Valid(t) && u in t.users
    ensures FindByUsername(t, u.cols.username) == Some(UserOf(u))
  {
    var found := FindByUsername(t, u.cols.username).value;
    assert UserRow(found) == u;
  }

  /** `getUserProfile`: absent for a missing user; otherwise the user's id and username with
      the user's booklists, quotes and reviews. */
  function Profile(t: Tables, userId: int): (r: Option<UserProfile>)
    ensures r.Some? <==> HasId(t.users, userId)
    ensures r.Some? ==> r.value.id == userId
                        && exists u | u in t.users :: u.id == userId && u.cols.username == r.value.username
    ensures r.Some? ==> forall b :: b in r.value.booklists
                          <==> exists row | row in t.booklists :: row.cols.userId == userId && BooklistOf(row) == b
    ensures r.Some? ==> forall q :: q in r.value.quotes <==> QuoteRow(q) in t.quotes && q.userId == userId
    ensures r.Some? ==> r.value.reviews == ReviewRepository.ReviewsByUser(t, userId)
  {
    match Find(t.users, userId)
    case None => None
    case Some(u) =>
      var lists := Filter(t.booklists, (b: Row<BooklistCols>) => b.cols.userId == userId);
      var quotes := Filter(t.quotes, (q: Row<QuoteCols>) => q.cols.userId == userId);
      MapMembers(lists, BooklistOf);
      MapMembers(quotes, QuoteOf);
      Some(UserProfile(userId, u.username, Map(lists, BooklistOf), Map(quotes, QuoteOf),
                       ReviewRepository.ReviewsByUser(t, userId)))
  }

  /** A user just added has an empty profile: no list, quote or review can reference an id
      that was not a user. */
  lemma {:induction false} NewUserProfileEmpty(t: Tables, id: int, c: UserCols)
    requires Valid(t) && !HasId(t.users, id)
    ensures Profile(t.(users := t.users + [Row(id, c)]), id) == Some(UserProfile(id, c.username, [], [], []))
  {
    var t' := t.(users := t.users + [Row(id, c)]);
    assert UniqueIds(t'.users);
    assert Row(id, c) in t'.users;
    FindRow(t'.users, Row(id, c));
    var p := Profile(t', id).value;
    NoMembersEmpty(p.booklists);
    NoMembersEmpty(p.quotes);
    NoMembersEmpty(p.reviews);
  }

  /** `authenticate`: the user with that username when its stored hash is the one given. */
  function Authenticate(t: Tables, username: string, passwordHash: string): (r: Option<User>)
    ensures r.Some? ==> r.value.username == username && r.value.passwordHash == passwordHash
                        && UserRow(r.value) in t.users
  {
    match FindByUsername(t, username)
    case Some(u) => if u.passwordHash == passwordHash then Some(u) else None
    case None => None
  }

  /** Under the unique index on `username`, authentication succeeds exactly when some user has
      both that username and that hash. */
  lemma AuthenticateMeaning(t: Tables, username: string, passwordHash: string)
    requires Valid(t)
    ensures Authenticate(t, username, passwordHash).Some?
            <==> exists u | u in t.users :: u.cols.username == username && u.cols.passwordHash == passwordHash
  {
    forall u | u in t.users && u.cols.username == username && u.cols.passwordHash == passwordHash
      ensures Authenticate(t, username, passwordHash).Some?
    {
      FindByUsernameUnique(t, u);
    }
  }

  /** A user row just inserted is found both by its id and by its username. */
  lemma CreatedReadsBack(t: Tables, id: int, c: UserCols)
    requires Valid(t) && !HasId(t.users, id) && CanInsertUser(t, c)
    ensures FindById(t.(users := t.users + [Row(id, c)]), id) == Some(UserOf(Row(id, c)))
    ensures FindByUsername(t.(users := t.users + [Row(id, c)]), c.username) == Some(UserOf(Row(id, c)))
  {
    InsertUserValid(t, id, c);
    var t' := t.(users := t.users + [Row(id, c)]);
    assert Row(id, c) in t'.users;
    FindRow(t'.users, Row(id, c));
    FindByUsernameUnique(t', Row(id, c));
  }

  /** `create`: inserts the user and answers it; raises when the email or the username is
      taken or a column is too long. */
  method Create(db: Db.Database, email: string, username: string, passwordHash: string) returns (r: Attempt<User>)
    requires db.Valid()
    modifies db
    ensures db.Valid()
    ensures r.Ok? <==> CanInsertUser(old(db.Tables()), UserCols(email, username, passwordHash))
    ensures r.Ok? ==>
              && r.value.email == email && r.value.username == username && r.value.passwordHash == passwordHash
              && !HasId(old(db.users), r.value.id)
              && db.Tables() == old(db.Tables()).(users := old(db.users) + [UserRow(r.value)])
              && FindById(db.Tables(), r.value.id) == Some(r.value)
              && FindByUsername(db.Tables(), username) == Some(r.value)
    ensures r.ConstraintViolation? ==> db.Tables() == old(db.Tables())
  {
    ghost var t := db.Tables();
    var c := UserCols(email, username, passwordHash);
    var id := db.InsertUser(c);
    if id.Some? {
      CreatedReadsBack(t, id.value, c);
      r := Ok(UserOf(Row(id.value, c)));
    } else {
      r := ConstraintViolation;
    }
  }

  /** An updated user row is found by its id with the new columns. */
  lemma UpdatedReadsBack(t: Tables, id: int, c: UserCols)
    requires UniqueIds(t.users) && HasId(t.users, id)
    ensures FindById(t.(users := Set(t.users, id, c)), id) == Some(UserOf(Row(id, c)))
  {
    SetUnique(t.users, id, c);
    assert Row(id, c) in Set(t.users, id, c);
    FindRow(Set(t.users, id, c), Row(id, c));
  }

  /** `update(user)`: `Ok(false)` and no change for a missing id; otherwise the username and
      the password hash are replaced and the email is kept, raising when the new username is
      taken or too long. */
  method Update(db: Db.Database, user: User) returns (r: Attempt<bool>)
    requires db.Valid()
    modifies db
    ensures db.Valid()
    ensures r == Ok(false) <==> !HasId(old(db.users), user.id)
    ensures r == Ok(true) <==>
              && FindById(old(db.Tables()), user.id).Some?
              && CanUpdateUser(old(db.Tables()), user.id,
                               UserCols(FindById(old(db.Tables()), user.id).value.email, user.username, user.passwordHash))
    ensures r == Ok(true) ==>
              && FindById(old(db.Tables()), user.id).Some?
              && FindById(db.Tables(), user.id)
                 == Some(User(user.id, FindById(old(db.Tables()), user.id).value.email, user.username, user.passwordHash))
              && db.Tables() == old(db.Tables()).(users := Set(old(db.users), user.id,
                   UserCols(FindById(old(db.Tables()), user.id).value.email, user.username, user.passwordHash)))
    ensures r != Ok(true) ==> db.Tables() == old(db.Tables())
  {
    var found := Find(db.users, user.id);
    if found.Some? {
      ghost var t := db.Tables();
      var c := UserCols(found.value.email, user.username, user.passwordHash);
      var ok := db.UpdateUser(user.id, c);
      if ok {
        UpdatedReadsBack(t, user.id, c);
        r := Ok(true);
      } else {
        r := ConstraintViolation;
      }
    } else {
      r := Ok(false);
    }
  }

  /** `delete(id)`: deletes the user with every row that references it and answers whether a
      user row went. */
  method DeleteById(db: Db.Database, id: int) returns (deleted: bool)
    requires db.Valid()
    modifies db
    ensures db.Valid()
    ensures deleted <==> HasId(old(db.users), id)
    ensures db.Tables() == CascadeDeleteUsers(old(db.Tables()), {id})
    ensures FindById(db.Tables(), id).None?
  {
    ghost var t := db.Tables();
    var before := |db.users|;
    db.DeleteUsers({id});
    CascadeDeleteUsersShrinks(t, {id});
    deleted := |db.users| < before;
  }

  /** The ids of the users called `username`. */
  function UsersNamed(users: seq<Row<UserCols>>, username: string): (r: set<int>)
    ensures forall u | u in users :: u.id in r <== u.cols.username == username
    ensures forall k | k in r :: exists u | u in users :: u.id == k && u.cols.username == username
  {
    set u | u in users && u.cols.username == username :: u.id
  }

  /** Deleting the users called `username` removes a row exactly when there was one, and
      leaves none of that name. */
  lemma DeletedByName(t: Tables, username: string)
    ensures |CascadeDeleteUsers(t, UsersNamed(t.users, username)).users| < |t.users|
            <==> exists u | u in t.users :: u.cols.username == username
    ensures FindByUsername(CascadeDeleteUsers(t, UsersNamed(t.users, username)), username).None?
  {
    CascadeDeleteUsersShrinks(t, UsersNamed(t.users, username));
  }

  /** `delete(username)`: deletes the users with that username, with every row that references
      them, and answers whether a user row went. */
  method DeleteByUsername(db: Db.Database, username: string) returns (deleted: bool)
    requires db.Valid()
    modifies db
    ensures db.Valid()
    ensures deleted <==> exists u | u in old(db.users) :: u.cols.username == username
    ensures db.Tables() == CascadeDeleteUsers(old(db.Tables()), UsersNamed(old(db.users), username))
    ensures FindByUsername(db.Tables(), username).None?
  {
    ghost var t := db.Tables();
    var before := |db.users|;
    var uids := UsersNamed(db.users, username);
    db.DeleteUsers(uids);
    DeletedByName(t, username);
    deleted := |db.users| < before;
  }
}
