/** The conversions from stored rows to the records of `Models` (`daoToModel`). */
module DaoMapper {
  import opened Common
  import opened Table
  import opened Schema
  import opened Models

  function UserOf(r: Row<UserCols>): User {
    User(r.id, r.cols.email, r.cols.username, r.cols.passwordHash)
  }

  /** A null description is reported as the empty string. */
  function BooklistOf(r: Row<BooklistCols>): (b: Booklist)
    ensures b.listDescription.Some?
    ensures b.listDescription.value == "" <==> r.cols.listDescription in {None, Some("")}
    ensures r.cols.listDescription.Some? ==> b.listDescription == r.cols.listDescription
  {
    Booklist(r.id, r.cols.userId, r.cols.listName,
             Some(if r.cols.listDescription.Some? then r.cols.listDescription.value else ""))
  }

  function QuoteOf(r: Row<QuoteCols>): Quote {
    Quote(r.id, r.cols.userId, r.cols.content)
  }

  function FollowOf(r: Row<FollowCols>): Follow {
    Follow(r.id, r.cols.followerId, r.cols.followeeId)
  }

  // The inverse direction, from a record back to the row it was read from.

  function UserRow(u: User): Row<UserCols> {
    Row(u.id, UserCols(u.email, u.username, u.passwordHash))
  }

  function BooklistRow(b: Booklist): Row<BooklistCols> {
    Row(b.id, BooklistCols(b.userId, b.listName, b.listDescription))
  }

  function QuoteRow(q: Quote): Row<QuoteCols> {
    Row(q.id, QuoteCols(q.userId, q.content))
  }

  function FollowRow(f: Follow): Row<FollowCols> {
    Row(f.id, FollowCols(f.followerId, f.followeeId))
  }

  /** Users, quotes and follow edges are mapped without loss, in both directions. */
  lemma LosslessMappings(u: Row<UserCols>, q: Row<QuoteCols>, f: Row<FollowCols>,
                         u': User, q': Quote, f': Follow)
    ensures UserRow(UserOf(u)) == u && UserOf(UserRow(u')) == u'
    ensures QuoteRow(QuoteOf(q)) == q && QuoteOf(QuoteRow(q')) == q'
    ensures FollowRow(FollowOf(f)) == f && FollowOf(FollowRow(f')) == f'
  {
  }

  /** A booklist row is recovered from its record exactly when its description is not null;
      a null description and an empty one are reported alike. */
  lemma BooklistMappingLossy(r: Row<BooklistCols>)
    ensures BooklistRow(BooklistOf(r)) == r <==> r.cols.listDescription.Some?
    ensures BooklistOf(r) == BooklistOf(r.(cols := r.cols.(listDescription := None)))
            <==> r.cols.listDescription in {None, Some("")}
  {
  }
}
