/** The `/followers` routes: open reads of the follow graph and session-gated follow and
    unfollow. */
module FollowerRoutes {
  import opened Common
  import opened KotlinText
  import opened Table
  import opened Schema
  import opened Models
  import opened DaoMapper
  import opened Http
  import opened RouteExtensions
  import opened FollowerRepository
  import Db

  /** `GET /followers`. */
  function ListAll(t: Tables): (r: Response)
    ensures r == Response(OK, FollowsJson(AllFollows(t)))
    ensures |r.body.follows| == |t.follows|
  {
    Response(OK, FollowsJson(AllFollows(t)))
  }

  /** `GET /followers/{identifier}/following`: the edges that start at the resolved user; a
      negative id is refused with 500. */
  function FollowingOf(t: Tables, params: Params): (r: Response)
    ensures ResolveUserId(t, params, "identifier").Rejected? ==> r == ResolveUserId(t, params, "identifier").response
    ensures ResolveUserId(t, params, "identifier").Found? ==>
              var userId := ResolveUserId(t, params, "identifier").value;
              (userId < 0 ==> r == ServerError("Error retrieving following users"))
              && (userId >= 0 ==> r.status == OK && r.body.FollowsJson?
                                  && forall f :: f in r.body.follows <==> FollowRow(f) in t.follows && f.followerId == userId)
  {
    match ResolveUserId(t, params, "identifier")
    case Rejected(response) => response
    case Found(userId) =>
      if userId < 0 then ServerError("Error retrieving following users")
      else Response(OK, FollowsJson(Following(t, userId)))
  }

  /** `GET /followers/{identifier}/followers`: the edges that point at the resolved user; a
      negative id is refused with 500. */
  function FollowersOfUser(t: Tables, params: Params): (r: Response)
    ensures ResolveUserId(t, params, "identifier").Rejected? ==> r == ResolveUserId(t, params, "identifier").response
    ensures ResolveUserId(t, params, "identifier").Found? ==>
              var userId := ResolveUserId(t, params, "identifier").value;
              (userId < 0 ==> r == ServerError("Error retrieving followers of user"))
              && (userId >= 0 ==> r.status == OK && r.body.FollowsJson?
                                  && forall f :: f in r.body.follows <==> FollowRow(f) in t.follows && f.followeeId == userId)
  {
    match ResolveUserId(t, params, "identifier")
    case Rejected(response) => response
    case Found(userId) =>
      if userId < 0 then ServerError("Error retrieving followers of user")
      else Response(OK, FollowsJson(FollowersOf(t, userId)))
  }

  /** The negative-id branch of both listings never fires on a store whose ids come from the
      sequences, which start at 1. */
  lemma NegativeIdBranchUnreachable(t: Tables, next: Db.NextIds, params: Params)
    requires Db.StoreValid(t, next)
    ensures FollowingOf(t, params).status != InternalServerError
    ensures FollowersOfUser(t, params).status != InternalServerError
  {
    var resolved := ResolveUserId(t, params, "identifier");
    if resolved.Found? {
      var u :| u in t.users && u.id == resolved.value;
    }
  }

  /** `GET /followers/check?followerId=…&followeeId=…`: 400 unless both read as integers, then
      whether the edge is stored. */
  function Check(t: Tables, query: Params): (r: Response)
    ensures (GetIntParam(query, "followerId").Found? && GetIntParam(query, "followeeId").Found?) <==> r.status == OK
    ensures r.status == OK ==>
              r.body == IsFollowingJson(IsFollowing(t, GetIntParam(query, "followerId").value,
                                                       GetIntParam(query, "followeeId").value))
    ensures r.status != OK ==> r == Response(BadRequest, Message("Both user IDs are required"))
  {
    var follower := GetIntParam(query, "followerId");
    var followee := GetIntParam(query, "followeeId");
    if follower.Rejected? || followee.Rejected? then Response(BadRequest, Message("Both user IDs are required"))
    else Response(OK, IsFollowingJson(IsFollowing(t, follower.value, followee.value)))
  }

  /** Through the route, a user never comes to follow itself and no edge is stored twice:
      starting from a graph without either, `POST /followers` keeps it so. */
  ghost predicate SimpleGraph(t: Tables) {
    (forall f | f in t.follows :: f.cols.followerId != f.cols.followeeId)
    && (forall f, g | f in t.follows && g in t.follows && f.cols == g.cols :: f == g)
  }

  /** Appending an edge between two different users that is not stored yet keeps the graph
      simple. */
  lemma AddEdgeKeepsSimple(t: Tables, id: int, a: int, b: int)
    requires SimpleGraph(t) && a != b && !IsFollowing(t, a, b)
    ensures SimpleGraph(t.(follows := t.follows + [Row(id, FollowCols(a, b))]))
  {
  }

  /** `POST /followers`: 401 without a session, 400 for following oneself, 409 for an edge
      already stored, 201 once the edge is stored, 500 "Failed to create follow" when either
      user does not exist (a session can outlive its user). */
  method Create(db: Db.Database, session: Session, req: FollowRequest) returns (resp: Response)
    requires db.Valid()
    modifies db
    ensures db.Valid()
    ensures session.None? ==> resp == NotAuthenticated
    ensures (session.Some? && session.value == req.followeeId) ==>
              resp == Response(BadRequest, Message("User cannot follow themselves"))
    ensures (session.Some? && session.value != req.followeeId && IsFollowing(old(db.Tables()), session.value, req.followeeId)) ==>
              resp == Response(Conflict, Message("User is already following this person"))
    ensures resp.status == Created <==>
              && session.Some? && session.value != req.followeeId
              && !IsFollowing(old(db.Tables()), session.value, req.followeeId)
              && CanInsertFollow(old(db.Tables()), FollowCols(session.value, req.followeeId))
    ensures resp.status == Created ==>
              resp.body == Message("Follow created successfully")
              && IsFollowing(db.Tables(), session.value, req.followeeId)
              && |db.follows| == |old(db.follows)| + 1
              && db.follows[|old(db.follows)|].cols == FollowCols(session.value, req.followeeId)
              && !HasId(old(db.follows), db.follows[|old(db.follows)|].id)
              && db.Tables() == old(db.Tables()).(follows := old(db.follows) + [db.follows[|old(db.follows)|]])
    ensures (session.Some? && session.value != req.followeeId && !IsFollowing(old(db.Tables()), session.value, req.followeeId)
             && resp.status != Created) ==> resp == ServerError("Failed to create follow")
    ensures SimpleGraph(old(db.Tables())) ==> SimpleGraph(db.Tables())
    ensures resp.status != Created ==> db.Tables() == old(db.Tables())
  {
    if session.None? {
      return NotAuthenticated;
    }
    var userId := session.value;
    if userId == req.followeeId {
      return Response(BadRequest, Message("User cannot follow themselves"));
    }
    if IsFollowing(db.Tables(), userId, req.followeeId) {
      return Response(Conflict, Message("User is already following this person"));
    }
    ghost var t := db.Tables();
    var r := AddFollow(db, userId, req);
    if r.Ok? && SimpleGraph(t) {
      AddEdgeKeepsSimple(t, r.value.id, userId, req.followeeId);
    }
    resp := if r.Ok? then Response(Created, Message("Follow created successfully"))
            else ServerError("Failed to create follow");
  }

  /** `DELETE /followers`: 401 without a session; otherwise every edge from the caller to the
      followee is deleted and the answer is 200 whether or not there was one. */
  method Remove(db: Db.Database, session: Session, req: FollowRequest) returns (resp: Response)
    requires db.Valid()
    modifies db
    ensures db.Valid()
    ensures session.None? ==> resp == NotAuthenticated && db.Tables() == old(db.Tables())
    ensures session.Some? ==>
              && resp == Response(OK, Message("Follow deleted successfully"))
              && !IsFollowing(db.Tables(), session.value, req.followeeId)
              && (forall f :: f in db.follows <==> f in old(db.follows) && f.cols != FollowCols(session.value, req.followeeId))
              && db.Tables() == old(db.Tables()).(follows := db.follows)
  {
    if session.None? {
      return NotAuthenticated;
    }
    var _ := DeleteFollow(db, session.value, req);
    resp := Response(OK, Message("Follow deleted successfully"));
  }
}
