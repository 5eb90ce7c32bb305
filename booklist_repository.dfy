/** `BooklistRepository`: reading booklists and their books, and the owner-gated writes. */
module BooklistRepository {
  import opened Common
  import opened Table
  import opened Schema
  import opened Models
  import opened DaoMapper
  import Db

  /** `allBooklists`: one record per stored booklist, in table order. */
  function AllBooklists(t: Tables): (r: seq<Booklist>)
    ensures |r| == |t.booklists|
    ensures forall i | 0 <= i < |r| :: r[i] == BooklistOf(t.booklists[i])
  {
    Map(t.booklists, BooklistOf)
  }

  /** `booklist(id)`: absent exactly when no booklist has that id. */
  function GetBooklist(t: Tables, booklistId: int): (r: Option<Booklist>)
    ensures r.Some? <==> HasId(t.booklists, booklistId)
    ensures r.Some? ==> r.value.id == booklistId
                        && exists row | row in t.booklists :: row.id == booklistId && r.value == BooklistOf(row)
  {
    match Find(t.booklists, booklistId)
    case None => None
    case Some(c) => Some(BooklistOf(Row(booklistId, c)))
  }

  /** The gate of every write: the booklist exists and `userId` owns it. */
  predicate OwnsList(t: Tables, booklistId: int, userId: int) {
    var found := Find(t.booklists, booklistId);
    found.Some? && found.value.userId == userId
  }

  /** Under the schema the gate says exactly that some booklist with that id belongs to the user. */
  lemma OwnsListMeaning(t: Tables, booklistId: int, userId: int)
    requires Valid(t)
    ensures OwnsList(t, booklistId, userId)
            <==> exists b | b in t.booklists :: b.id == booklistId && b.cols.userId == userId
  {
    if b :| b in t.booklists && b.id == booklistId && b.cols.userId == userId {
      FindRow(t.booklists, b);
    }
  }

  /** The book ids stored for list `booklistId`, in table order (`find { booklistId eq … }.map { it.bookId }`). */
  function BooksOf(entries: seq<Row<BooklistBookCols>>, booklistId: int): (r: seq<string>)
    ensures forall b :: b in r <==> exists e | e in entries :: e.cols == BooklistBookCols(booklistId, b)
    ensures |r| <= |entries|
  {
    if entries == [] then []
    else
      assert forall e | e in entries :: e == entries[0] || e in entries[1..];
      (if entries[0].cols.booklistId == booklistId then [entries[0].cols.bookId] else [])
      + BooksOf(entries[1..], booklistId)
  }

  /** `booklistWithBooks(id)`: absent for a missing list; otherwise the list's columns (a null
      description reported as "") together with exactly the books stored for it. */
  function GetBooklistWithBooks(t: Tables, booklistId: int): (r: Option<BooklistWithBooks>)
    ensures r.Some? <==> HasId(t.booklists, booklistId)
    ensures r.Some? ==>
              var b := GetBooklist(t, booklistId).value;
              r.value == BooklistWithBooks(b.id, b.userId, b.listName, b.listDescription, r.value.books)
              && forall book :: book in r.value.books
                                <==> exists e | e in t.booklistBooks :: e.cols == BooklistBookCols(booklistId, book)
  {
    match Find(t.booklists, booklistId)
    case None => None
    case Some(c) =>
      var desc := if c.listDescription.Some? then c.listDescription.value else "";
      Some(BooklistWithBooks(booklistId, c.userId, c.listName, Some(desc), BooksOf(t.booklistBooks, booklistId)))
  }

  /** The columns a request stores for a list owned by `userId`. */
  function RequestCols(userId: int, req: BooklistRequest): BooklistCols {
    BooklistCols(userId, req.listName, req.listDescription)
  }

  /** After appending a booklist row to a valid store, the new list reads back as that row. */
  lemma ReadAfterInsert(t: Tables, row: Row<BooklistCols>)
    requires UniqueIds(t.booklists + [row])
    ensures GetBooklist(t.(booklists := t.booklists + [row]), row.id) == Some(BooklistOf(row))
    ensures BooklistOf(row) in AllBooklists(t.(booklists := t.booklists + [row]))
  {
    var t' := t.(booklists := t.booklists + [row]);
    assert row in t'.booklists;
    FindRow(t'.booklists, row);
    assert AllBooklists(t')[|t.booklists|] == BooklistOf(row);
  }

  /** After overwriting a booklist row of a valid store, the list reads back with the new columns. */
  lemma ReadAfterUpdate(t: Tables, booklistId: int, c: BooklistCols)
    requires UniqueIds(t.booklists) && HasId(t.booklists, booklistId)
    ensures GetBooklist(t.(booklists := Set(t.booklists, booklistId, c)), booklistId) == Some(BooklistOf(Row(booklistId, c)))
  {
    assert Row(booklistId, c) in Set(t.booklists, booklistId, c);
    SetUnique(t.booklists, booklistId, c);
    FindRow(Set(t.booklists, booklistId, c), Row(booklistId, c));
  }

  /** After appending an entry for an existing list, the list reads back holding that book. */
  lemma BookAfterInsert(t: Tables, row: Row<BooklistBookCols>)
    requires HasId(t.booklists, row.cols.booklistId)
    ensures GetBooklistWithBooks(t.(booklistBooks := t.booklistBooks + [row]), row.cols.booklistId).Some?
    ensures row.cols.bookId in GetBooklistWithBooks(t.(booklistBooks := t.booklistBooks + [row]), row.cols.booklistId).value.books
  {
    assert row in t.booklistBooks + [row];
  }

  /** `addBooklist`: inserts the list for `userId`, or raises when the owner does not exist,
      the owner already has a list of that name or a column is too long. */
  method AddBooklist(db: Db.Database, userId: int, req: BooklistRequest) returns (r: Attempt<Booklist>)
    requires db.Valid()
    modifies db
    ensures db.Valid()
    ensures r.Ok? <==> CanInsertBooklist(old(db.Tables()), RequestCols(userId, req))
    ensures r.Ok? ==>
              && r.value == BooklistOf(Row(r.value.id, RequestCols(userId, req)))
              && !HasId(old(db.booklists), r.value.id)
              && db.Tables() == old(db.Tables()).(booklists := old(db.booklists) + [Row(r.value.id, RequestCols(userId, req))])
              && GetBooklist(db.Tables(), r.value.id) == Some(r.value)
              && r.value in AllBooklists(db.Tables())
    ensures r.ConstraintViolation? ==> db.Tables() == old(db.Tables())
  {
    ghost var t := db.Tables();
    var c := RequestCols(userId, req);
    var id := db.InsertBooklist(c);
    if id.Some? {
      ReadAfterInsert(t, Row(id.value, c));
      r := Ok(BooklistOf(Row(id.value, c)));
    } else {
      r := ConstraintViolation;
    }
  }

  /** `updateBooklist`: `Ok(false)` when the list is missing or owned by someone else;
      otherwise the name and description are overwritten, which raises on a breach of the
      schema (typically a name the owner already uses). */
  method UpdateBooklist(db: Db.Database, booklistId: int, userId: int, req: BooklistRequest)
    returns (r: Attempt<bool>)
    requires db.Valid()
    modifies db
    ensures db.Valid()
    ensures r == Ok(false) <==> !OwnsList(old(db.Tables()), booklistId, userId)
    ensures r == Ok(true) <==> OwnsList(old(db.Tables()), booklistId, userId)
                               && CanUpdateBooklist(old(db.Tables()), booklistId, RequestCols(userId, req))
    ensures r == Ok(true) ==>
              && db.Tables() == old(db.Tables()).(booklists := Set(old(db.booklists), booklistId, RequestCols(userId, req)))
              && GetBooklist(db.Tables(), booklistId) == Some(BooklistOf(Row(booklistId, RequestCols(userId, req))))
    ensures r != Ok(true) ==> db.Tables() == old(db.Tables())
  {
    var found := Find(db.booklists, booklistId);
    if found.Some? && found.value.userId == userId {
      ghost var t := db.Tables();
      var c := RequestCols(userId, req);
      var ok := db.UpdateBooklist(booklistId, c);
      if ok {
        ReadAfterUpdate(t, booklistId, c);
        r := Ok(true);
      } else {
        r := ConstraintViolation;
      }
    } else {
      r := Ok(false);
    }
  }

  /** `removeBooklist`: deletes an owned list together with its books. */
  method RemoveBooklist(db: Db.Database, booklistId: int, userId: int) returns (removed: bool)
    requires db.Valid()
    modifies db
    ensures db.Valid()
    ensures removed <==> OwnsList(old(db.Tables()), booklistId, userId)
    ensures removed ==> db.Tables() == CascadeDeleteBooklists(old(db.Tables()), {booklistId})
                        && GetBooklist(db.Tables(), booklistId).None?
    ensures !removed ==> db.Tables() == old(db.Tables())
  {
    var found := Find(db.booklists, booklistId);
    if found.Some? && found.value.userId == userId {
      db.DeleteBooklist(booklistId);
      removed := true;
    } else {
      removed := false;
    }
  }

  /** Removing a list changes no other list, and the removed list is gone with all its books. */
  lemma {:induction false} RemoveKeepsOthers(t: Tables, booklistId: int, other: int)
    requires Valid(t)
    ensures GetBooklistWithBooks(CascadeDeleteBooklists(t, {booklistId}), booklistId).None?
    ensures forall book :: book !in BooksOf(CascadeDeleteBooklists(t, {booklistId}).booklistBooks, booklistId)
    ensures other != booklistId ==>
              GetBooklist(CascadeDeleteBooklists(t, {booklistId}), other) == GetBooklist(t, other)
  {
    var t' := CascadeDeleteBooklists(t, {booklistId});
    if other != booklistId && HasId(t.booklists, other) {
      var b :| b in t.booklists && b.id == other;
      assert b in t'.booklists;
      FilterUnique(t.booklists, (x: Row<BooklistCols>) => x.id !in {booklistId});
      FindRow(t.booklists, b);
      FindRow(t'.booklists, b);
    }
  }

  /** `addBookToBooklist`: `Ok(false)` (and no new row) unless the caller owns the list;
      otherwise the book is inserted, which raises when the list already holds it or the id
      is too long. */
  method AddBookToBooklist(db: Db.Database, booklistId: int, userId: int, bookId: string)
    returns (r: Attempt<bool>)
    requires db.Valid()
    modifies db
    ensures db.Valid()
    ensures r == Ok(false) <==> !OwnsList(old(db.Tables()), booklistId, userId)
    ensures r == Ok(true) <==> OwnsList(old(db.Tables()), booklistId, userId)
                               && CanInsertBooklistBook(old(db.Tables()), BooklistBookCols(booklistId, bookId))
    ensures r == Ok(true) ==> GetBooklistWithBooks(db.Tables(), booklistId).Some?
                              && bookId in GetBooklistWithBooks(db.Tables(), booklistId).value.books
                              && |db.booklistBooks| == |old(db.booklistBooks)| + 1
                              && db.booklistBooks[..|old(db.booklistBooks)|] == old(db.booklistBooks)
                              && db.booklistBooks[|old(db.booklistBooks)|].cols == BooklistBookCols(booklistId, bookId)
                              && !HasId(old(db.booklistBooks), db.booklistBooks[|old(db.booklistBooks)|].id)
                              && db.Tables() == old(db.Tables()).(booklistBooks := db.booklistBooks)
    ensures r != Ok(true) ==> db.Tables() == old(db.Tables())
  {
    var found := Find(db.booklists, booklistId);
    if found.Some? && found.value.userId == userId {
      ghost var t := db.Tables();
      var c := BooklistBookCols(booklistId, bookId);
      var id := db.InsertBooklistBook(c);
      if id.Some? {
        BookAfterInsert(t, Row(id.value, c));
        assert db.booklistBooks[..|t.booklistBooks|] == t.booklistBooks;
        r := Ok(true);
      } else {
        r := ConstraintViolation;
      }
    } else {
      r := Ok(false);
    }
  }

  /** `removeBookFromBooklist`: false unless the caller owns the list and at least one
      `(booklistId, bookId)` row was deleted; afterwards the list no longer holds the book. */
  method RemoveBookFromBooklist(db: Db.Database, booklistId: int, userId: int, bookId: string)
    returns (removed: bool)
    requires db.Valid()
    modifies db
    ensures db.Valid()
    ensures removed <==> OwnsList(old(db.Tables()), booklistId, userId)
                         && bookId in BooksOf(old(db.booklistBooks), booklistId)
    ensures OwnsList(old(db.Tables()), booklistId, userId) ==>
              db.Tables() == old(db.Tables()).(booklistBooks := Db.DropBook(old(db.booklistBooks), booklistId, bookId))
              && GetBooklistWithBooks(db.Tables(), booklistId).Some?
              && bookId !in GetBooklistWithBooks(db.Tables(), booklistId).value.books
    ensures !OwnsList(old(db.Tables()), booklistId, userId) ==> db.Tables() == old(db.Tables())
  {
    var found := Find(db.booklists, booklistId);
    if found.Some? && found.value.userId == userId {
      var before := |db.booklistBooks|;
      Db.DropBookShrinks(db.booklistBooks, booklistId, bookId);
      db.DeleteBooklistBooks(booklistId, bookId);
      removed := |db.booklistBooks| < before;
    } else {
      removed := false;
    }
  }
}
