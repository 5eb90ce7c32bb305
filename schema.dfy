/** The database schema declared in the `db/tables` files: the columns of the six tables,
    their length limits and nullability, the unique indexes and the foreign keys, all
    gathered into one predicate `Valid` that every committed state of the store satisfies.
    The database rejects a write whose result would break `Valid`; the `Can…` predicates
    below say, for each kind of write, exactly which writes it accepts. */
module Schema {
  import opened Common
  import opened Table

  // ---------------------------------------------------------------- users

  const EmailLength: int := 255
  const UsernameLength: int := 50
  const PasswordHashLength: int := 255

  datatype UserCols = UserCols(email: string, username: string, passwordHash: string)

  predicate UserFits(c: UserCols) {
    |c.email| <= EmailLength && |c.username| <= UsernameLength && |c.passwordHash| <= PasswordHashLength
  }

  /** `email` has a unique index. */
  predicate EmailsUnique(users: seq<Row<UserCols>>) {
    forall a, b | a in users && b in users && a.cols.email == b.cols.email :: a.id == b.id
  }

  /** `username` has a unique index. */
  predicate UsernamesUnique(users: seq<Row<UserCols>>) {
    forall a, b | a in users && b in users && a.cols.username == b.cols.username :: a.id == b.id
  }

  predicate UsersValid(users: seq<Row<UserCols>>) {
    UniqueIds(users) && EmailsUnique(users) && UsernamesUnique(users)
    && forall u | u in users :: UserFits(u.cols)
  }

  // ---------------------------------------------------------------- booklists

  const ListNameLength: int := 50
  const ListDescriptionLength: int := 255

  /** `user_id` references users (on delete cascade); `list_description` is nullable. */
  datatype BooklistCols = BooklistCols(userId: int, listName: string, listDescription: Option<string>)

  predicate BooklistFits(c: BooklistCols) {
    |c.listName| <= ListNameLength
    && (c.listDescription.None? || |c.listDescription.value| <= ListDescriptionLength)
  }

  /** The unique index `uq_listname_per_user` on `(user_id, list_name)`. */
  predicate ListNamesUnique(booklists: seq<Row<BooklistCols>>) {
    forall a, b | a in booklists && b in booklists
      && a.cols.userId == b.cols.userId && a.cols.listName == b.cols.listName :: a.id == b.id
  }

  predicate BooklistsValid(users: seq<Row<UserCols>>, booklists: seq<Row<BooklistCols>>) {
    UniqueIds(booklists) && ListNamesUnique(booklists)
    && forall b | b in booklists :: BooklistFits(b.cols) && HasId(users, b.cols.userId)
  }

  // ---------------------------------------------------------------- booklist_books

  const BookIdLength: int := 32

  /** `booklist_id` references booklists (on delete cascade). */
  datatype BooklistBookCols = BooklistBookCols(booklistId: int, bookId: string)

  /** The unique index `uq_book_per_list` on `(book_id, booklist_id)`. */
  predicate BooksUniquePerList(entries: seq<Row<BooklistBookCols>>) {
    forall a, b | a in entries && b in entries
      && a.cols.bookId == b.cols.bookId && a.cols.booklistId == b.cols.booklistId :: a.id == b.id
  }

  predicate BooklistBooksValid(booklists: seq<Row<BooklistCols>>, entries: seq<Row<BooklistBookCols>>) {
    UniqueIds(entries) && BooksUniquePerList(entries)
    && forall e | e in entries :: |e.cols.bookId| <= BookIdLength && HasId(booklists, e.cols.booklistId)
  }

  // ---------------------------------------------------------------- reviews

  const ReviewContentLength: int := 255
  /** A calendar date (`reviewed_at`); the model never computes with dates. */
  datatype Date = Date(year: int, month: int, day: int)

  /** `user_id` references users (on delete cascade); `content` is nullable; `rate` is a
      plain integer column with no range constraint. */
  datatype ReviewCols = ReviewCols(userId: int, bookId: string, content: Option<string>,
                                   rate: int, favorite: bool, reviewedAt: Date)

  predicate ReviewFits(c: ReviewCols) {
    |c.bookId| <= BookIdLength && (c.content.None? || |c.content.value| <= ReviewContentLength)
  }

  predicate ReviewsValid(users: seq<Row<UserCols>>, reviews: seq<Row<ReviewCols>>) {
    UniqueIds(reviews) && forall r | r in reviews :: ReviewFits(r.cols) && HasId(users, r.cols.userId)
  }

  // ---------------------------------------------------------------- quotes

  const QuoteContentLength: int := 255

  /** `user_id` references users (on delete cascade); `content` is not nullable. */
  datatype QuoteCols = QuoteCols(userId: int, content: string)

  predicate QuotesValid(users: seq<Row<UserCols>>, quotes: seq<Row<QuoteCols>>) {
    UniqueIds(quotes)
    && forall q | q in quotes :: |q.cols.content| <= QuoteContentLength && HasId(users, q.cols.userId)
  }

  // ---------------------------------------------------------------- followers

  /** Both columns reference users (on delete cascade). There is no unique index on the
      pair and no check against following oneself. */
  datatype FollowCols = FollowCols(followerId: int, followeeId: int)

  predicate FollowsValid(users: seq<Row<UserCols>>, follows: seq<Row<FollowCols>>) {
    UniqueIds(follows)
    && forall f | f in follows :: HasId(users, f.cols.followerId) && HasId(users, f.cols.followeeId)
  }

  // ---------------------------------------------------------------- the whole store

  datatype Tables = Tables(
    users: seq<Row<UserCols>>,
    booklists: seq<Row<BooklistCols>>,
    booklistBooks: seq<Row<BooklistBookCols>>,
    reviews: seq<Row<ReviewCols>>,
    quotes: seq<Row<QuoteCols>>,
    follows: seq<Row<FollowCols>>)

  const Empty: Tables := Tables([], [], [], [], [], [])

  /** Every constraint the schema declares. */
  predicate Valid(t: Tables) {
    UsersValid(t.users)
    && BooklistsValid(t.users, t.booklists)
    && BooklistBooksValid(t.booklists, t.booklistBooks)
    && ReviewsValid(t.users, t.reviews)
    && QuotesValid(t.users, t.quotes)
    && FollowsValid(t.users, t.follows)
  }

  lemma EmptyValid()
    ensures Valid(Empty)
  {
  }

  // ---------------------------------------------------------------- which writes are accepted

  /** A new user is accepted iff its columns fit and its email and username are both unused. */
  predicate CanInsertUser(t: Tables, c: UserCols) {
    UserFits(c) && forall u | u in t.users :: u.cols.email != c.email && u.cols.username != c.username
  }

  /** New columns for user `id` are accepted iff they fit and no other user has that email or username. */
  predicate CanUpdateUser(t: Tables, id: int, c: UserCols) {
    UserFits(c)
    && forall u | u in t.users && u.id != id :: u.cols.email != c.email && u.cols.username != c.username
  }

  /** A new booklist is accepted iff it fits, its owner exists and the owner has no list of that name. */
  predicate CanInsertBooklist(t: Tables, c: BooklistCols) {
    BooklistFits(c) && HasId(t.users, c.userId)
    && forall b | b in t.booklists :: !(b.cols.userId == c.userId && b.cols.listName == c.listName)
  }

  /** New columns for booklist `id` are accepted iff they fit, the owner exists and no other list
      of that owner has that name. */
  predicate CanUpdateBooklist(t: Tables, id: int, c: BooklistCols) {
    BooklistFits(c) && HasId(t.users, c.userId)
    && forall b | b in t.booklists && b.id != id :: !(b.cols.userId == c.userId && b.cols.listName == c.listName)
  }

  /** A book is accepted into a list iff its id fits, the list exists and the book is not in it yet. */
  predicate CanInsertBooklistBook(t: Tables, c: BooklistBookCols) {
    |c.bookId| <= BookIdLength && HasId(t.booklists, c.booklistId)
    && forall e | e in t.booklistBooks :: !(e.cols.booklistId == c.booklistId && e.cols.bookId == c.bookId)
  }

  /** Review columns are accepted (on insert and on update) iff they fit and the owner exists;
      nothing is demanded of `rate`. */
  predicate CanWriteReview(t: Tables, c: ReviewCols) {
    ReviewFits(c) && HasId(t.users, c.userId)
  }

  predicate CanWriteQuote(t: Tables, c: QuoteCols) {
    |c.content| <= QuoteContentLength && HasId(t.users, c.userId)
  }

  /** A follow edge is accepted iff both ends exist: self-follows and repeated edges are accepted. */
  predicate CanInsertFollow(t: Tables, c: FollowCols) {
    HasId(t.users, c.followerId) && HasId(t.users, c.followeeId)
  }

  lemma {:induction false} InsertUserValid(t: Tables, id: int, c: UserCols)
    requires Valid(t) && !HasId(t.users, id)
    ensures Valid(t.(users := t.users + [Row(id, c)])) <==> CanInsertUser(t, c)
  {
    var users' := t.users + [Row(id, c)];
    var t' := t.(users := users');
    if CanInsertUser(t, c) {
      forall b | b in t.booklists ensures HasId(users', b.cols.userId) {
        HasIdAppend(t.users, Row(id, c), b.cols.userId);
      }
      forall r | r in t.reviews ensures HasId(users', r.cols.userId) {
        HasIdAppend(t.users, Row(id, c), r.cols.userId);
      }
      forall q | q in t.quotes ensures HasId(users', q.cols.userId) {
        HasIdAppend(t.users, Row(id, c), q.cols.userId);
      }
      forall f | f in t.follows ensures HasId(users', f.cols.followerId) && HasId(users', f.cols.followeeId) {
        HasIdAppend(t.users, Row(id, c), f.cols.followerId);
        HasIdAppend(t.users, Row(id, c), f.cols.followeeId);
      }
      assert Valid(t');
    }
    if Valid(t') {
      assert Row(id, c) in users';
      forall u | u in t.users ensures u.cols.email != c.email && u.cols.username != c.username {
        assert u in users';
      }
    }
  }

  lemma {:induction false} UpdateUserValid(t: Tables, id: int, c: UserCols)
    requires Valid(t) && HasId(t.users, id)
    ensures Valid(t.(users := Set(t.users, id, c))) <==> CanUpdateUser(t, id, c)
  {
    var users' := Set(t.users, id, c);
    assert Row(id, c) in users';
    SetUnique(t.users, id, c);
    if CanUpdateUser(t, id, c) {
      forall a, b | a in users' && b in users' && (a.cols.email == b.cols.email || a.cols.username == b.cols.username)
        ensures a.id == b.id
      {
        if a.id != id && b.id != id { assert a in t.users && b in t.users; }
      }
      forall k ensures HasId(users', k) <==> HasId(t.users, k) {
        SetHasId(t.users, id, c, k);
      }
      SameUserIdsValid(t, users');
    }
    if UsersValid(users') {
      forall u | u in t.users && u.id != id ensures u.cols.email != c.email && u.cols.username != c.username {
        assert u in users';
      }
    }
  }

  /** Replacing the users table by one with the same ids and valid users keeps every constraint. */
  lemma SameUserIdsValid(t: Tables, users': seq<Row<UserCols>>)
    requires Valid(t) && UsersValid(users')
    requires forall k :: HasId(users', k) <==> HasId(t.users, k)
    ensures Valid(t.(users := users'))
  {
  }

  lemma {:induction false} InsertBooklistValid(t: Tables, id: int, c: BooklistCols)
    requires Valid(t) && !HasId(t.booklists, id)
    ensures Valid(t.(booklists := t.booklists + [Row(id, c)])) <==> CanInsertBooklist(t, c)
  {
    var booklists' := t.booklists + [Row(id, c)];
    var t' := t.(booklists := booklists');
    if CanInsertBooklist(t, c) {
      forall e | e in t.booklistBooks ensures HasId(booklists', e.cols.booklistId) {
        HasIdAppend(t.booklists, Row(id, c), e.cols.booklistId);
      }
      assert Valid(t');
    }
    if Valid(t') {
      assert Row(id, c) in booklists';
      forall b | b in t.booklists ensures !(b.cols.userId == c.userId && b.cols.listName == c.listName) {
        assert b in booklists';
      }
    }
  }

  lemma {:induction false} UpdateBooklistValid(t: Tables, id: int, c: BooklistCols)
    requires Valid(t) && HasId(t.booklists, id)
    ensures Valid(t.(booklists := Set(t.booklists, id, c))) <==> CanUpdateBooklist(t, id, c)
  {
    var booklists' := Set(t.booklists, id, c);
    assert Row(id, c) in booklists';
    SetUnique(t.booklists, id, c);
    if CanUpdateBooklist(t, id, c) {
      assert BooklistsValid(t.users, booklists');
      forall k ensures HasId(booklists', k) <==> HasId(t.booklists, k) {
        SetHasId(t.booklists, id, c, k);
      }
      assert BooklistBooksValid(booklists', t.booklistBooks);
    }
    if BooklistsValid(t.users, booklists') {
      forall b | b in t.booklists && b.id != id
        ensures !(b.cols.userId == c.userId && b.cols.listName == c.listName)
      {
        assert b in booklists';
      }
    }
  }

  lemma {:induction false} InsertBooklistBookValid(t: Tables, id: int, c: BooklistBookCols)
    requires Valid(t) && !HasId(t.booklistBooks, id)
    ensures Valid(t.(booklistBooks := t.booklistBooks + [Row(id, c)])) <==> CanInsertBooklistBook(t, c)
  {
    var entries' := t.booklistBooks + [Row(id, c)];
    if Valid(t.(booklistBooks := entries')) {
      assert Row(id, c) in entries';
      forall e | e in t.booklistBooks ensures !(e.cols.booklistId == c.booklistId && e.cols.bookId == c.bookId) {
        assert e in entries';
      }
    }
  }

  lemma {:induction false} InsertReviewValid(t: Tables, id: int, c: ReviewCols)
    requires Valid(t) && !HasId(t.reviews, id)
    ensures Valid(t.(reviews := t.reviews + [Row(id, c)])) <==> CanWriteReview(t, c)
  {
    if Valid(t.(reviews := t.reviews + [Row(id, c)])) {
      assert Row(id, c) in t.reviews + [Row(id, c)];
    }
  }

  lemma {:induction false} UpdateReviewValid(t: Tables, id: int, c: ReviewCols)
    requires Valid(t) && HasId(t.reviews, id)
    ensures Valid(t.(reviews := Set(t.reviews, id, c))) <==> CanWriteReview(t, c)
  {
    assert Row(id, c) in Set(t.reviews, id, c);
    SetUnique(t.reviews, id, c);
  }

  lemma {:induction false} InsertQuoteValid(t: Tables, id: int, c: QuoteCols)
    requires Valid(t) && !HasId(t.quotes, id)
    ensures Valid(t.(quotes := t.quotes + [Row(id, c)])) <==> CanWriteQuote(t, c)
  {
    if Valid(t.(quotes := t.quotes + [Row(id, c)])) {
      assert Row(id, c) in t.quotes + [Row(id, c)];
    }
  }

  lemma {:induction false} UpdateQuoteValid(t: Tables, id: int, c: QuoteCols)
    requires Valid(t) && HasId(t.quotes, id)
    ensures Valid(t.(quotes := Set(t.quotes, id, c))) <==> CanWriteQuote(t, c)
  {
    assert Row(id, c) in Set(t.quotes, id, c);
    SetUnique(t.quotes, id, c);
  }

  lemma {:induction false} InsertFollowValid(t: Tables, id: int, c: FollowCols)
    requires Valid(t) && !HasId(t.follows, id)
    ensures Valid(t.(follows := t.follows + [Row(id, c)])) <==> CanInsertFollow(t, c)
  {
    if Valid(t.(follows := t.follows + [Row(id, c)])) {
      assert Row(id, c) in t.follows + [Row(id, c)];
    }
  }

  // ---------------------------------------------------------------- deletes and cascades

  /** Deleting booklists: `ON DELETE CASCADE` on `booklist_books.booklist_id` removes their books too. */
  function CascadeDeleteBooklists(t: Tables, ids: set<int>): (r: Tables)
    ensures forall b :: b in r.booklists <==> b in t.booklists && b.id !in ids
    ensures forall e :: e in r.booklistBooks <==> e in t.booklistBooks && e.cols.booklistId !in ids
    ensures r.users == t.users && r.reviews == t.reviews && r.quotes == t.quotes && r.follows == t.follows
  {
    t.(booklists := Filter(t.booklists, (b: Row<BooklistCols>) => b.id !in ids),
       booklistBooks := Filter(t.booklistBooks, (e: Row<BooklistBookCols>) => e.cols.booklistId !in ids))
  }

  /** The ids of the booklists owned by any of the users `uids`. */
  function ListsOwnedBy(t: Tables, uids: set<int>): set<int> {
    set b | b in t.booklists && b.cols.userId in uids :: b.id
  }

  /** Deleting users: every foreign key to `users` is `ON DELETE CASCADE`, so their booklists
      (and, through those, the booklists' books), reviews and quotes go too, and so does every
      follow edge in which one of them is the follower or the followee. */
  function CascadeDeleteUsers(t: Tables, uids: set<int>): (r: Tables)
    ensures forall u :: u in r.users <==> u in t.users && u.id !in uids
    ensures forall b :: b in r.booklists <==> b in t.booklists && b.cols.userId !in uids
    ensures forall e :: e in r.booklistBooks <==> e in t.booklistBooks && e.cols.booklistId !in ListsOwnedBy(t, uids)
    ensures forall v :: v in r.reviews <==> v in t.reviews && v.cols.userId !in uids
    ensures forall q :: q in r.quotes <==> q in t.quotes && q.cols.userId !in uids
    ensures forall f :: f in r.follows <==>
              f in t.follows && f.cols.followerId !in uids && f.cols.followeeId !in uids
  {
    var lists := ListsOwnedBy(t, uids);
    Tables(
      Filter(t.users, (u: Row<UserCols>) => u.id !in uids),
      Filter(t.booklists, (b: Row<BooklistCols>) => b.cols.userId !in uids),
      Filter(t.booklistBooks, (e: Row<BooklistBookCols>) => e.cols.booklistId !in lists),
      Filter(t.reviews, (v: Row<ReviewCols>) => v.cols.userId !in uids),
      Filter(t.quotes, (q: Row<QuoteCols>) => q.cols.userId !in uids),
      Filter(t.follows, (f: Row<FollowCols>) => f.cols.followerId !in uids && f.cols.followeeId !in uids))
  }

  /** Deleting booklists with their books keeps every constraint. */
  lemma {:induction false} CascadeDeleteBooklistsValid(t: Tables, ids: set<int>)
    requires Valid(t)
    ensures Valid(CascadeDeleteBooklists(t, ids))
  {
    var r := CascadeDeleteBooklists(t, ids);
    forall e | e in r.booklistBooks ensures HasId(r.booklists, e.cols.booklistId) {
      var b :| b in t.booklists && b.id == e.cols.booklistId;
      assert b in r.booklists;
    }
  }

  /** Deleting users with everything that cascades from them keeps every constraint:
      no row is left that points at a deleted user or a deleted booklist. */
  lemma {:induction false} CascadeDeleteUsersValid(t: Tables, uids: set<int>)
    requires Valid(t)
    ensures Valid(CascadeDeleteUsers(t, uids))
  {
    var r := CascadeDeleteUsers(t, uids);
    forall k | HasId(t.users, k) && k !in uids ensures HasId(r.users, k) {
      var u :| u in t.users && u.id == k;
      assert u in r.users;
    }
    forall e | e in r.booklistBooks ensures HasId(r.booklists, e.cols.booklistId) {
      var b :| b in t.booklists && b.id == e.cols.booklistId;
      assert b.cols.userId !in uids;
      assert b in r.booklists;
    }
    assert BooklistsValid(r.users, r.booklists);
    assert ReviewsValid(r.users, r.reviews);
    assert QuotesValid(r.users, r.quotes);
    assert FollowsValid(r.users, r.follows);
  }

  /** Nothing references booklist entries, reviews, quotes or follow edges, so deleting any
      of them keeps every constraint. */
  lemma FilterLeafTablesValid(t: Tables, e: Row<BooklistBookCols> -> bool, v: Row<ReviewCols> -> bool,
                              q: Row<QuoteCols> -> bool, f: Row<FollowCols> -> bool)
    requires Valid(t)
    ensures Valid(t.(booklistBooks := Filter(t.booklistBooks, e), reviews := Filter(t.reviews, v),
                     quotes := Filter(t.quotes, q), follows := Filter(t.follows, f)))
  {
  }

  /** Deleting users removes a user row exactly when some user has one of the ids. */
  lemma CascadeDeleteUsersShrinks(t: Tables, uids: set<int>)
    ensures |CascadeDeleteUsers(t, uids).users| < |t.users| <==> exists u | u in t.users :: u.id in uids
  {
    FilterDropsSome(t.users, (u: Row<UserCols>) => u.id !in uids);
  }
}
