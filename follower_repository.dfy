/** `FollowerRepository`: follow edges between users. The repository itself checks nothing;
    self-follows and repeated edges reach the table, which accepts them. */
module FollowerRepository {
  import opened Common
  import opened Table
  import opened Schema
  import opened Models
  import opened DaoMapper
  import Db

  /** The rows of edge `followerId -> followeeId`. */
  function EdgeRows(follows: seq<Row<FollowCols>>, followerId: int, followeeId: int): (r: seq<Row<FollowCols>>)
    ensures forall f :: f in r <==> f in follows && f.cols == FollowCols(followerId, followeeId)
  {
    Filter(follows, (f: Row<FollowCols>) => f.cols == FollowCols(followerId, followeeId))
  }

  /** `getAllFollows`: every edge, in table order. */
  function AllFollows(t: Tables): (r: seq<Follow>)
    ensures |r| == |t.follows|
    ensures forall i | 0 <= i < |r| :: FollowRow(r[i]) == t.follows[i]
  {
    Map(t.follows, FollowOf)
  }

  /** `getFollowersOfUser(u)`: the edges that point at `u`. */
  function FollowersOf(t: Tables, userId: int): (r: seq<Follow>)
    ensures forall f :: f in r <==> FollowRow(f) in t.follows && f.followeeId == userId
  {
    var rows := Filter(t.follows, (f: Row<FollowCols>) => f.cols.followeeId == userId);
    MapMembers(rows, FollowOf);
    Map(rows, FollowOf)
  }

  /** `getFollowingUsers(u)`: the edges that start at `u`. */
  function Following(t: Tables, userId: int): (r: seq<Follow>)
    ensures forall f :: f in r <==> FollowRow(f) in t.follows && f.followerId == userId
  {
    var rows := Filter(t.follows, (f: Row<FollowCols>) => f.cols.followerId == userId);
    MapMembers(rows, FollowOf);
    Map(rows, FollowOf)
  }

  /** `isFollowing(a, b)`: some edge `a -> b` is stored. */
  predicate IsFollowing(t: Tables, followerId: int, followeeId: int) {
    exists f | f in t.follows :: f.cols == FollowCols(followerId, followeeId)
  }

  /** `isFollowing(a, b)` holds exactly when `b` is among the users `a` follows, and exactly
      when `a` is among the followers of `b`. */
  lemma IsFollowingConsistent(t: Tables, followerId: int, followeeId: int)
    ensures IsFollowing(t, followerId, followeeId)
            <==> exists f | f in Following(t, followerId) :: f.followeeId == followeeId
    ensures IsFollowing(t, followerId, followeeId)
            <==> exists f | f in FollowersOf(t, followeeId) :: f.followerId == followerId
  {
    if IsFollowing(t, followerId, followeeId) {
      var row :| row in t.follows && row.cols == FollowCols(followerId, followeeId);
      assert FollowRow(FollowOf(row)) == row;
      assert FollowOf(row) in Following(t, followerId);
      assert FollowOf(row) in FollowersOf(t, followeeId);
    }
  }

  /** The table neither forbids a repeated edge nor a user following itself: storing either
      keeps the schema. */
  lemma {:induction false} RepeatedAndSelfEdgesAccepted(t: Tables, a: int, b: int, id: int)
    requires Valid(t) && !HasId(t.follows, id)
    ensures IsFollowing(t, a, b) ==> Valid(t.(follows := t.follows + [Row(id, FollowCols(a, b))]))
    ensures HasId(t.users, a) ==> Valid(t.(follows := t.follows + [Row(id, FollowCols(a, a))]))
  {
    InsertFollowValid(t, id, FollowCols(a, b));
    InsertFollowValid(t, id, FollowCols(a, a));
  }

  /** `addFollow`: stores the edge `userId -> followeeId` under a fresh id and answers it;
      raises when either user does not exist. */
  method AddFollow(db: Db.Database, userId: int, req: FollowRequest) returns (r: Attempt<Follow>)
    requires db.Valid()
    modifies db
    ensures db.Valid()
    ensures r.Ok? <==> CanInsertFollow(old(db.Tables()), FollowCols(userId, req.followeeId))
    ensures r.Ok? ==>
              && r.value.followerId == userId && r.value.followeeId == req.followeeId
              && !HasId(old(db.follows), r.value.id)
              && db.Tables() == old(db.Tables()).(follows := old(db.follows) + [FollowRow(r.value)])
              && IsFollowing(db.Tables(), userId, req.followeeId)
    ensures r.ConstraintViolation? ==> db.Tables() == old(db.Tables())
  {
    var c := FollowCols(userId, req.followeeId);
    var id := db.InsertFollow(c);
    if id.Some? {
      assert Row(id.value, c) in db.follows;
      r := Ok(FollowOf(Row(id.value, c)));
    } else {
      r := ConstraintViolation;
    }
  }

  /** The follow rows that remain of `all` once the rows in `removed` are deleted. */
  ghost predicate Remains(current: seq<Row<FollowCols>>, all: seq<Row<FollowCols>>, removed: seq<Row<FollowCols>>) {
    forall f :: f in current <==> f in all && f !in removed
  }

  /** `deleteFollow`: finds every edge `userId -> followeeId`, deletes them one by one and
      answers whether there was any. All other edges and tables are kept. */
  method DeleteFollow(db: Db.Database, userId: int, req: FollowRequest) returns (deleted: bool)
    requires db.Valid()
    modifies db
    ensures db.Valid()
    ensures deleted <==> IsFollowing(old(db.Tables()), userId, req.followeeId)
    ensures forall f :: f in db.follows <==> f in old(db.follows) && f.cols != FollowCols(userId, req.followeeId)
    ensures db.Tables() == old(db.Tables()).(follows := db.follows)
    ensures !IsFollowing(db.Tables(), userId, req.followeeId)
  {
    ghost var all := db.follows;
    var toDelete := EdgeRows(db.follows, userId, req.followeeId);
    var i := 0;
    assert Remains(db.follows, all, toDelete[..0]);
    while i < |toDelete|
      invariant 0 <= i <= |toDelete|
      invariant db.Valid()
      invariant db.Tables() == old(db.Tables()).(follows := db.follows)
      invariant Remains(db.follows, all, toDelete[..i])
    {
      DeleteStep(all, db.follows, toDelete, i);
      db.DeleteFollow(toDelete[i].id);
      i := i + 1;
    }
    deleted := |toDelete| > 0;
    AllEdgesDeleted(all, db.follows, toDelete, userId, req.followeeId);
  }

  /** One round of the loop: deleting the id of the next row to delete, in a table whose ids
      are unique, removes exactly that row. */
  lemma DeleteStep(all: seq<Row<FollowCols>>, current: seq<Row<FollowCols>>, toDelete: seq<Row<FollowCols>>, i: int)
    requires UniqueIds(all) && forall f | f in toDelete :: f in all
    requires 0 <= i < |toDelete| && Remains(current, all, toDelete[..i])
    ensures Remains(Delete(current, toDelete[i].id), all, toDelete[..i + 1])
  {
    assert toDelete[..i + 1] == toDelete[..i] + [toDelete[i]];
    assert toDelete[i] in toDelete;
  }

  /** After the loop no edge `a -> b` is left, everything else is, and there was something to
      delete exactly when the edge was stored. */
  lemma AllEdgesDeleted(all: seq<Row<FollowCols>>, current: seq<Row<FollowCols>>, toDelete: seq<Row<FollowCols>>, a: int, b: int)
    requires toDelete == EdgeRows(all, a, b) && Remains(current, all, toDelete[..|toDelete|])
    ensures forall f :: f in current <==> f in all && f.cols != FollowCols(a, b)
    ensures !exists f | f in current :: f.cols == FollowCols(a, b)
    ensures |toDelete| > 0 <==> exists f | f in all :: f.cols == FollowCols(a, b)
  {
    assert toDelete[..|toDelete|] == toDelete;
    if |toDelete| > 0 {
      assert toDelete[0] in toDelete;
    }
  }
}
