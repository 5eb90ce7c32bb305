/** The relational store behind the repositories, as the repositories see it through
    Exposed: six tables with serial ids, a write that commits only when the resulting state
    still meets every constraint of `Schema` (otherwise the statement raises and the
    transaction rolls back, leaving nothing changed), and deletes that cascade along the
    foreign keys. */
module Db {
  import opened Common
  import opened Table
  import opened Schema

  /** The next value of each table's id sequence. */
  datatype NextIds = NextIds(user: int, booklist: int, booklistBook: int, review: int, quote: int, follow: int)

  /** The entries of `booklist_books` left after deleting book `bookId` from list `booklistId`. */
  function DropBook(entries: seq<Row<BooklistBookCols>>, booklistId: int, bookId: string): (r: seq<Row<BooklistBookCols>>)
    ensures forall e :: e in r <==> e in entries && !(e.cols.booklistId == booklistId && e.cols.bookId == bookId)
  {
    Filter(entries, (e: Row<BooklistBookCols>) => !(e.cols.booklistId == booklistId && e.cols.bookId == bookId))
  }

  /** Every committed state meets the schema, and every id handed out so far lies below
      its sequence's next value, so a new id is never one already in use. */
  ghost predicate StoreValid(t: Schema.Tables, next: NextIds) {
    Schema.Valid(t)
    && IdsBelow(t.users, next.user) && IdsBelow(t.booklists, next.booklist)
    && IdsBelow(t.booklistBooks, next.booklistBook) && IdsBelow(t.reviews, next.review)
    && IdsBelow(t.quotes, next.quote) && IdsBelow(t.follows, next.follow)
  }

  lemma DeleteUsersKeepsValid(t: Schema.Tables, next: NextIds, uids: set<int>)
    requires StoreValid(t, next)
    ensures StoreValid(CascadeDeleteUsers(t, uids), next)
  {
    CascadeDeleteUsersValid(t, uids);
  }

  /** Deleting book `bookId` from list `booklistId` removes a row exactly when the list holds it. */
  lemma DropBookShrinks(entries: seq<Row<BooklistBookCols>>, booklistId: int, bookId: string)
    ensures |DropBook(entries, booklistId, bookId)| < |entries|
            <==> exists e | e in entries :: e.cols == BooklistBookCols(booklistId, bookId)
  {
    FilterDropsSome(entries, (e: Row<BooklistBookCols>) => !(e.cols.booklistId == booklistId && e.cols.bookId == bookId));
  }

  class Database {
    var users: seq<Row<UserCols>>
    var booklists: seq<Row<BooklistCols>>
    var booklistBooks: seq<Row<BooklistBookCols>>
    var reviews: seq<Row<ReviewCols>>
    var quotes: seq<Row<QuoteCols>>
    var follows: seq<Row<FollowCols>>
    var next: NextIds

    /** The committed contents of every table. */
    function Tables(): Schema.Tables
      reads this
    {
      Schema.Tables(users, booklists, booklistBooks, reviews, quotes, follows)
    }

    ghost predicate Valid()
      reads this
    {
      StoreValid(Tables(), next)
    }

    constructor ()
      ensures Valid() && Tables() == Empty
    {
      users, booklists, booklistBooks := [], [], [];
      reviews, quotes, follows := [], [], [];
      next := NextIds(1, 1, 1, 1, 1, 1);
      EmptyValid();
    }

    // ------------------------------------------------------------ users

    /** `INSERT INTO users`: the id is drawn from the sequence even when the insert is rejected. */
    method InsertUser(c: UserCols) returns (id: Option<int>)
      requires Valid()
      modifies this
      ensures Valid()
      ensures next == old(next).(user := old(next).user + 1)
      ensures id.Some? <==> CanInsertUser(old(Tables()), c)
      ensures id.Some? ==> !HasId(old(users), id.value)
                           && Tables() == old(Tables()).(users := old(users) + [Row(id.value, c)])
      ensures id.None? ==> Tables() == old(Tables())
    {
      var newId := next.user;
      NextIdUnused(users, newId);
      InsertUserValid(Tables(), newId, c);
      IdsBelowAppend(users, newId, c);
      next := next.(user := newId + 1);
      var candidate := Tables().(users := users + [Row(newId, c)]);
      if Schema.Valid(candidate) {
        users := candidate.users;
        id := Some(newId);
      } else {
        id := None;
      }
    }

    /** `UPDATE users` of an existing row. */
    method UpdateUser(id: int, c: UserCols) returns (ok: bool)
      requires Valid() && HasId(users, id)
      modifies this
      ensures Valid() && next == old(next)
      ensures ok <==> CanUpdateUser(old(Tables()), id, c)
      ensures ok ==> Tables() == old(Tables()).(users := Set(old(users), id, c))
      ensures !ok ==> Tables() == old(Tables())
    {
      UpdateUserValid(Tables(), id, c);
      var candidate := Tables().(users := Set(users, id, c));
      ok := Schema.Valid(candidate);
      if ok {
        IdsBelowSet(users, id, c, next.user);
        users := candidate.users;
      }
    }

    /** `DELETE FROM users WHERE id IN uids`, with every cascade. */
    method DeleteUsers(uids: set<int>)
      requires Valid()
      modifies this
      ensures Valid() && next == old(next)
      ensures Tables() == CascadeDeleteUsers(old(Tables()), uids)
    {
      DeleteUsersKeepsValid(Tables(), next, uids);
      var r := CascadeDeleteUsers(Tables(), uids);
      users, booklists, booklistBooks := r.users, r.booklists, r.booklistBooks;
      reviews, quotes, follows := r.reviews, r.quotes, r.follows;
      assert Tables() == r;
    }

    // ------------------------------------------------------------ booklists

    method InsertBooklist(c: BooklistCols) returns (id: Option<int>)
      requires Valid()
      modifies this
      ensures Valid()
      ensures next == old(next).(booklist := old(next).booklist + 1)
      ensures id.Some? <==> CanInsertBooklist(old(Tables()), c)
      ensures id.Some? ==> !HasId(old(booklists), id.value)
                           && Tables() == old(Tables()).(booklists := old(booklists) + [Row(id.value, c)])
      ensures id.None? ==> Tables() == old(Tables())
    {
      var newId := next.booklist;
      NextIdUnused(booklists, newId);
      InsertBooklistValid(Tables(), newId, c);
      IdsBelowAppend(booklists, newId, c);
      next := next.(booklist := newId + 1);
      var candidate := Tables().(booklists := booklists + [Row(newId, c)]);
      if Schema.Valid(candidate) {
        booklists := candidate.booklists;
        id := Some(newId);
      } else {
        id := None;
      }
    }

    method UpdateBooklist(id: int, c: BooklistCols) returns (ok: bool)
      requires Valid() && HasId(booklists, id)
      modifies this
      ensures Valid() && next == old(next)
      ensures ok <==> CanUpdateBooklist(old(Tables()), id, c)
      ensures ok ==> Tables() == old(Tables()).(booklists := Set(old(booklists), id, c))
      ensures !ok ==> Tables() == old(Tables())
    {
      UpdateBooklistValid(Tables(), id, c);
      var candidate := Tables().(booklists := Set(booklists, id, c));
      ok := Schema.Valid(candidate);
      if ok {
        IdsBelowSet(booklists, id, c, next.booklist);
        booklists := candidate.booklists;
      }
    }

    /** `DELETE FROM booklists WHERE id = …`, cascading to the list's books. */
    method DeleteBooklist(id: int)
      requires Valid()
      modifies this
      ensures Valid() && next == old(next)
      ensures Tables() == CascadeDeleteBooklists(old(Tables()), {id})
    {
      CascadeDeleteBooklistsValid(Tables(), {id});
      var r := CascadeDeleteBooklists(Tables(), {id});
      booklists, booklistBooks := r.booklists, r.booklistBooks;
    }

    // ------------------------------------------------------------ booklist_books

    method InsertBooklistBook(c: BooklistBookCols) returns (id: Option<int>)
      requires Valid()
      modifies this
      ensures Valid()
      ensures next == old(next).(booklistBook := old(next).booklistBook + 1)
      ensures id.Some? <==> CanInsertBooklistBook(old(Tables()), c)
      ensures id.Some? ==> !HasId(old(booklistBooks), id.value)
                           && Tables() == old(Tables()).(booklistBooks := old(booklistBooks) + [Row(id.value, c)])
      ensures id.None? ==> Tables() == old(Tables())
    {
      var newId := next.booklistBook;
      NextIdUnused(booklistBooks, newId);
      InsertBooklistBookValid(Tables(), newId, c);
      IdsBelowAppend(booklistBooks, newId, c);
      next := next.(booklistBook := newId + 1);
      var candidate := Tables().(booklistBooks := booklistBooks + [Row(newId, c)]);
      if Schema.Valid(candidate) {
        booklistBooks := candidate.booklistBooks;
        id := Some(newId);
      } else {
        id := None;
      }
    }

    /** `DELETE FROM booklist_books WHERE booklist_id = … AND book_id = …`. */
    method DeleteBooklistBooks(booklistId: int, bookId: string)
      requires Valid()
      modifies this
      ensures Valid() && next == old(next)
      ensures Tables() == old(Tables()).(booklistBooks := DropBook(old(booklistBooks), booklistId, bookId))
    {
      FilterUnique(booklistBooks, (e: Row<BooklistBookCols>) => !(e.cols.booklistId == booklistId && e.cols.bookId == bookId));
      booklistBooks := DropBook(booklistBooks, booklistId, bookId);
    }

    // ------------------------------------------------------------ reviews

    method InsertReview(c: ReviewCols) returns (id: Option<int>)
      requires Valid()
      modifies this
      ensures Valid()
      ensures next == old(next).(review := old(next).review + 1)
      ensures id.Some? <==> CanWriteReview(old(Tables()), c)
      ensures id.Some? ==> !HasId(old(reviews), id.value)
                           && Tables() == old(Tables()).(reviews := old(reviews) + [Row(id.value, c)])
      ensures id.None? ==> Tables() == old(Tables())
    {
      var newId := next.review;
      NextIdUnused(reviews, newId);
      InsertReviewValid(Tables(), newId, c);
      IdsBelowAppend(reviews, newId, c);
      next := next.(review := newId + 1);
      var candidate := Tables().(reviews := reviews + [Row(newId, c)]);
      if Schema.Valid(candidate) {
        reviews := candidate.reviews;
        id := Some(newId);
      } else {
        id := None;
      }
    }

    method UpdateReview(id: int, c: ReviewCols) returns (ok: bool)
      requires Valid() && HasId(reviews, id)
      modifies this
      ensures Valid() && next == old(next)
      ensures ok <==> CanWriteReview(old(Tables()), c)
      ensures ok ==> Tables() == old(Tables()).(reviews := Set(old(reviews), id, c))
      ensures !ok ==> Tables() == old(Tables())
    {
      UpdateReviewValid(Tables(), id, c);
      var candidate := Tables().(reviews := Set(reviews, id, c));
      ok := Schema.Valid(candidate);
      if ok {
        IdsBelowSet(reviews, id, c, next.review);
        reviews := candidate.reviews;
      }
    }

    method DeleteReview(id: int)
      requires Valid()
      modifies this
      ensures Valid() && next == old(next)
      ensures Tables() == old(Tables()).(reviews := Delete(old(reviews), id))
    {
      FilterUnique(reviews, (x: Row<ReviewCols>) => x.id != id);
      reviews := Delete(reviews, id);
    }

    // ------------------------------------------------------------ quotes

    method InsertQuote(c: QuoteCols) returns (id: Option<int>)
      requires Valid()
      modifies this
      ensures Valid()
      ensures next == old(next).(quote := old(next).quote + 1)
      ensures id.Some? <==> CanWriteQuote(old(Tables()), c)
      ensures id.Some? ==> !HasId(old(quotes), id.value)
                           && Tables() == old(Tables()).(quotes := old(quotes) + [Row(id.value, c)])
      ensures id.None? ==> Tables() == old(Tables())
    {
      var newId := next.quote;
      NextIdUnused(quotes, newId);
      InsertQuoteValid(Tables(), newId, c);
      IdsBelowAppend(quotes, newId, c);
      next := next.(quote := newId + 1);
      var candidate := Tables().(quotes := quotes + [Row(newId, c)]);
      if Schema.Valid(candidate) {
        quotes := candidate.quotes;
        id := Some(newId);
      } else {
        id := None;
      }
    }

    method UpdateQuote(id: int, c: QuoteCols) returns (ok: bool)
      requires Valid() && HasId(quotes, id)
      modifies this
      ensures Valid() && next == old(next)
      ensures ok <==> CanWriteQuote(old(Tables()), c)
      ensures ok ==> Tables() == old(Tables()).(quotes := Set(old(quotes), id, c))
      ensures !ok ==> Tables() == old(Tables())
    {
      UpdateQuoteValid(Tables(), id, c);
      var candidate := Tables().(quotes := Set(quotes, id, c));
      ok := CanWriteQuote(Tables(), c);
      if ok {
        IdsBelowSet(quotes, id, c, next.quote);
        quotes := candidate.quotes;
        assert Tables() == candidate;
      }
    }

    method DeleteQuote(id: int)
      requires Valid()
      modifies this
      ensures Valid() && next == old(next)
      ensures Tables() == old(Tables()).(quotes := Delete(old(quotes), id))
    {
      FilterUnique(quotes, (x: Row<QuoteCols>) => x.id != id);
      quotes := Delete(quotes, id);
    }

    // ------------------------------------------------------------ followers

    method InsertFollow(c: FollowCols) returns (id: Option<int>)
      requires Valid()
      modifies this
      ensures Valid()
      ensures next == old(next).(follow := old(next).follow + 1)
      ensures id.Some? <==> CanInsertFollow(old(Tables()), c)
      ensures id.Some? ==> !HasId(old(follows), id.value)
                           && Tables() == old(Tables()).(follows := old(follows) + [Row(id.value, c)])
      ensures id.None? ==> Tables() == old(Tables())
    {
      var newId := next.follow;
      NextIdUnused(follows, newId);
      InsertFollowValid(Tables(), newId, c);
      IdsBelowAppend(follows, newId, c);
      next := next.(follow := newId + 1);
      var candidate := Tables().(follows := follows + [Row(newId, c)]);
      if Schema.Valid(candidate) {
        follows := candidate.follows;
        id := Some(newId);
      } else {
        id := None;
      }
    }

    method DeleteFollow(id: int)
      requires Valid()
      modifies this
      ensures Valid() && next == old(next)
      ensures Tables() == old(Tables()).(follows := Delete(old(follows), id))
    {
      FilterUnique(follows, (x: Row<FollowCols>) => x.id != id);
      follows := Delete(follows, id);
    }
  }
}
