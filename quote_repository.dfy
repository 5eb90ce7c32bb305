/** `QuoteRepository`: quotes are owned by a user; edits and deletes are gated on ownership. */
module QuoteRepository {
  import opened Common
  import opened Table
  import opened Schema
  import opened Models
  import opened DaoMapper
  import Db

  /** `allQuotes`: every quote, in table order. */
  function AllQuotes(t: Tables): (r: seq<Quote>)
    ensures |r| == |t.quotes|
    ensures forall i | 0 <= i < |r| :: QuoteRow(r[i]) == t.quotes[i]
  {
    Map(t.quotes, QuoteOf)
  }

  /** `quote(id)`: absent exactly when no quote has that id. */
  function GetQuote(t: Tables, quoteId: int): (r: Option<Quote>)
    ensures r.Some? <==> HasId(t.quotes, quoteId)
    ensures r.Some? ==> r.value.id == quoteId && QuoteRow(r.value) in t.quotes
  {
    match Find(t.quotes, quoteId)
    case None => None
    case Some(c) => Some(QuoteOf(Row(quoteId, c)))
  }

  /** The gate of every write: the quote exists and `userId` owns it. */
  predicate OwnsQuote(t: Tables, quoteId: int, userId: int) {
    var found := Find(t.quotes, quoteId);
    found.Some? && found.value.userId == userId
  }

  /** Under the schema the gate means: some stored quote with that id belongs to `userId`. */
  lemma OwnsQuoteMeaning(t: Tables, quoteId: int, userId: int)
    requires Valid(t)
    ensures OwnsQuote(t, quoteId, userId) <==> exists q | q in t.quotes :: q.id == quoteId && q.cols.userId == userId
  {
    forall q | q in t.quotes && q.id == quoteId
      ensures Find(t.quotes, quoteId) == Some(q.cols)
    {
      FindRow(t.quotes, q);
    }
  }

  /** After overwriting quote `id`, it reads back with the new columns. */
  lemma ReadBackAfterSet(t: Tables, quoteId: int, c: QuoteCols)
    requires UniqueIds(t.quotes) && HasId(t.quotes, quoteId)
    ensures GetQuote(t.(quotes := Set(t.quotes, quoteId, c)), quoteId) == Some(Quote(quoteId, c.userId, c.content))
  {
    SetUnique(t.quotes, quoteId, c);
    assert Row(quoteId, c) in Set(t.quotes, quoteId, c);
    FindRow(Set(t.quotes, quoteId, c), Row(quoteId, c));
  }

  /** `addQuote`: appends one quote owned by `userId` under a fresh id and answers nothing;
      raises when the owner does not exist or the content is too long. */
  method AddQuote(db: Db.Database, userId: int, req: QuoteRequest) returns (r: Attempt<()>)
    requires db.Valid()
    modifies db
    ensures db.Valid()
    ensures r.Ok? <==> CanWriteQuote(old(db.Tables()), QuoteCols(userId, req.content))
    ensures r.Ok? ==>
              && |db.quotes| == |old(db.quotes)| + 1
              && db.quotes[..|old(db.quotes)|] == old(db.quotes)
              && db.quotes[|old(db.quotes)|].cols == QuoteCols(userId, req.content)
              && !HasId(old(db.quotes), db.quotes[|old(db.quotes)|].id)
              && db.Tables() == old(db.Tables()).(quotes := db.quotes)
    ensures r.ConstraintViolation? ==> db.Tables() == old(db.Tables())
  {
    var id := db.InsertQuote(QuoteCols(userId, req.content));
    if id.Some? {
      assert db.quotes[..|old(db.quotes)|] == old(db.quotes);
      r := Ok(());
    } else {
      r := ConstraintViolation;
    }
  }

  /** `editQuote`: `Ok(false)` and no change unless the caller owns the quote; otherwise only
      the content is replaced, raising when it is too long. */
  method EditQuote(db: Db.Database, quoteId: int, userId: int, req: QuoteRequest) returns (r: Attempt<bool>)
    requires db.Valid()
    modifies db
    ensures db.Valid()
    ensures r == Ok(false) <==> !OwnsQuote(old(db.Tables()), quoteId, userId)
    ensures r == Ok(true) <==> OwnsQuote(old(db.Tables()), quoteId, userId)
                               && |req.content| <= QuoteContentLength
    ensures r == Ok(true) ==>
              && db.Tables() == old(db.Tables()).(quotes := Set(old(db.quotes), quoteId, QuoteCols(userId, req.content)))
              && GetQuote(db.Tables(), quoteId) == Some(Quote(quoteId, userId, req.content))
    ensures r != Ok(true) ==> db.Tables() == old(db.Tables())
  {
    var found := Find(db.quotes, quoteId);
    if found.Some? && found.value.userId == userId {
      ghost var t := db.Tables();
      var c := QuoteCols(userId, req.content);
      assert HasId(t.users, userId);
      var ok := db.UpdateQuote(quoteId, c);
      if ok {
        ReadBackAfterSet(t, quoteId, c);
        r := Ok(true);
      } else {
        r := ConstraintViolation;
      }
    } else {
      r := Ok(false);
    }
  }

  /** `deleteQuote`: deletes an owned quote and nothing else. */
  method DeleteQuote(db: Db.Database, quoteId: int, userId: int) returns (deleted: bool)
    requires db.Valid()
    modifies db
    ensures db.Valid()
    ensures deleted <==> OwnsQuote(old(db.Tables()), quoteId, userId)
    ensures deleted ==> db.Tables() == old(db.Tables()).(quotes := Delete(old(db.quotes), quoteId))
                        && GetQuote(db.Tables(), quoteId).None?
    ensures !deleted ==> db.Tables() == old(db.Tables())
  {
    var found := Find(db.quotes, quoteId);
    if found.Some? && found.value.userId == userId {
      db.DeleteQuote(quoteId);
      deleted := true;
    } else {
      deleted := false;
    }
  }
}
