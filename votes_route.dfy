/**
 * `POST /api/votes`: checks the body, resolves the voter by username, then removes the voter's
 * vote (`voteType` 0) or stores it (`voteType` 1 or -1), and answers the idea's recomputed
 * aggregate as the voter sees it.
 */
module VotesRoute {
  import opened Wrappers
  import opened Js
  import opened Db
  import opened Queries
  import opened Http

  datatype VoteBody = VoteBody(ideaId: Value, username: Value, voteType: Value)

  const MissingFields := "ideaId and username are required"
  const BadVoteType := "voteType must be 1 (upvote), -1 (downvote), or 0 (remove vote)"
  const VoteFailed := "Failed to process vote"

  /** `voteType` compared with `!==`: exactly the numbers 1, -1 and 0, with no coercion. */
  predicate IsVoteType(v: Value)
  {
    v == Num(1) || v == Num(-1) || v == Num(0)
  }

  /** The outcome of the checks on the body, before the store is touched. */
  datatype Decision = Reject(message: string) | Accept(ideaId: int, username: string, voteType: int) | MistypedBody

  /**
   * The two guards in order: the required fields first, so a body missing `ideaId` is refused
   * for that even when its `voteType` is bad too, then the vote value.
   */
  function Decide(b: VoteBody): (d: Decision)
    ensures d.Reject? <==> !Truthy(b.ideaId) || !Truthy(b.username) || !IsVoteType(b.voteType)
    ensures d.Reject? ==> (d.message == MissingFields <==> !Truthy(b.ideaId) || !Truthy(b.username))
    ensures d.Reject? ==> d.message == MissingFields || d.message == BadVoteType
    ensures d.Accept? ==>
      && b == VoteBody(Num(d.ideaId), Str(d.username), Num(d.voteType))
      && d.ideaId != 0 && d.username != ""
      && (d.voteType == 0 || IsVoteValue(d.voteType))
    ensures d.MistypedBody? ==> !IsId(b.ideaId) || !IsText(b.username)
  {
    if !Truthy(b.ideaId) || !Truthy(b.username) then Reject(MissingFields)
    else if !IsVoteType(b.voteType) then Reject(BadVoteType)
    else if !(IsId(b.ideaId) && IsText(b.username)) then MistypedBody
    else Accept(b.ideaId.n, b.username.s, b.voteType.n)
  }

  /** The votes table after the route's call: `removeVote` for 0, `upsertVote` otherwise. */
  function Dispatched(votes: seq<VoteRow>, ideaId: int, userId: int, voteType: int): seq<VoteRow>
  {
    if voteType == 0 then Removed(votes, ideaId, userId) else Upserted(votes, ideaId, userId, voteType)
  }

  /**
   * After the call the voter's vote on the idea is gone (0) or is the value sent (±1), and
   * every other (idea, user) pair keeps its vote.
   */
  lemma DispatchedLookup(votes: seq<VoteRow>, ideaId: int, userId: int, voteType: int, i: int, u: int)
    requires UniqueVoteKeys(votes)
    ensures UniqueVoteKeys(Dispatched(votes, ideaId, userId, voteType))
    ensures VoteOf(Dispatched(votes, ideaId, userId, voteType), i, u)
            == if i == ideaId && u == userId then (if voteType == 0 then None else Some(voteType))
               else VoteOf(votes, i, u)
  {
    if voteType == 0 {
      RemovedLookup(votes, ideaId, userId, i, u);
    } else {
      UpsertedLookup(votes, ideaId, userId, voteType, i, u);
    }
  }

  /**
   * The handler. A refused body gets a 400 and the store is not touched. An accepted one
   * resolves the voter with get-or-create (which may add the user even when the vote then
   * fails), applies the vote, and answers the idea as the voter sees it; storing ±1 on an idea
   * that does not exist breaks a foreign key and is answered with a 500.
   */
  method Post(db: Database, body: VoteBody) returns (r: Response<Option<IdeaView>>)
    requires db.Valid()
    modifies db
    ensures db.Valid()
    ensures Decide(body).Reject? ==> r == Error(StatusBadRequest, Decide(body).message) && unchanged(db)
    ensures Decide(body).MistypedBody? ==> r == UnsupportedBody && unchanged(db)
    ensures Decide(body).Accept? ==>
      var d := Decide(body);
      var user := GetUserByUsername(db, d.username);
      && user.Some?
      && (db.users == old(db.users) || db.users == old(db.users) + [d.username])
      && (d.voteType == 0 || IsRowId(d.ideaId, |db.ideas|) ==>
            && db.votes == Dispatched(old(db.votes), d.ideaId, user.value.id, d.voteType)
            && r == Json(StatusOk, IdeaById(db, d.ideaId, Some(user.value.id))))
      && (d.voteType != 0 && !IsRowId(d.ideaId, |db.ideas|) ==>
            db.votes == old(db.votes) && r == Error(StatusServerError, VoteFailed))
    ensures Decide(body).Accept? && IsRowId(Decide(body).ideaId, |db.ideas|) ==>
      r.Json? && r.payload.Some?
      && r.payload.value.userVote == (if Decide(body).voteType == 0 then NoVote else Voted(Decide(body).voteType))
    ensures db.ideas == old(db.ideas) && db.comments == old(db.comments)
    ensures db.participants == old(db.participants) && db.teams == old(db.teams)
    ensures db.nextTeamId == old(db.nextTeamId) && db.members == old(db.members)
  {
    var d := Decide(body);
    if d.Reject? {
      r := Error(StatusBadRequest, d.message);
      return;
    }
    if d.MistypedBody? {
      r := UnsupportedBody;
      return;
    }
    var user := GetOrCreateUser(db, d.username);
    r := Apply(db, d.ideaId, user.id, d.voteType);
  }

  /** `removeVote` or `upsertVote` for an existing voter, and the answer built from its result. */
  method Apply(db: Database, ideaId: int, userId: int, voteType: int) returns (r: Response<Option<IdeaView>>)
    requires db.Valid()
    requires IsRowId(userId, |db.users|) && (voteType == 0 || IsVoteValue(voteType))
    modifies db
    ensures db.Valid()
    ensures voteType == 0 || IsRowId(ideaId, |db.ideas|) ==>
      && db.votes == Dispatched(old(db.votes), ideaId, userId, voteType)
      && r == Json(StatusOk, IdeaById(db, ideaId, Some(userId)))
    ensures voteType != 0 && !IsRowId(ideaId, |db.ideas|) ==>
      db.votes == old(db.votes) && r == Error(StatusServerError, VoteFailed)
    ensures IsRowId(ideaId, |db.ideas|) ==>
      r.Json? && r.payload.Some? && r.payload.value.userVote == (if voteType == 0 then NoVote else Voted(voteType))
    ensures db.users == old(db.users) && db.ideas == old(db.ideas) && db.comments == old(db.comments)
    ensures db.participants == old(db.participants) && db.teams == old(db.teams)
    ensures db.nextTeamId == old(db.nextTeamId) && db.members == old(db.members)
  {
    if voteType == 0 {
      var idea := RemoveVote(db, ideaId, userId);
      r := Json(StatusOk, idea);
    } else {
      var stored := UpsertVote(db, ideaId, userId, voteType);
      if stored.Success? {
        r := Json(StatusOk, stored.value);
      } else {
        r := Error(StatusServerError, VoteFailed);
      }
    }
  }
}
