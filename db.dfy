/**
 * The tables of the store and the constraints their schema declares. Every id is a SERIAL
 * column starting at 1. Users, ideas and comments are never deleted, so each of those tables
 * is a sequence whose row k-1 has id k; teams are deleted by team randomization, so they are a
 * map from id to row next to the SERIAL counter.
 */
module Db {
  import opened Wrappers

  datatype IdeaRow = IdeaRow(title: string, description: string, userId: int, createdAt: int)
  datatype VoteRow = VoteRow(ideaId: int, userId: int, voteType: int)
  datatype CommentRow = CommentRow(ideaId: int, userId: int, content: string, createdAt: int)
  datatype ParticipantRow = ParticipantRow(hackathonId: int, userId: int, joinedAt: int)
  datatype TeamRow = TeamRow(name: string, hackathonId: int, ideaId: Option<int>, createdBy: int)
  datatype MemberRow = MemberRow(teamId: int, userId: int)

  /** The error a statement raises when it would break a table constraint; it then changes nothing. */
  datatype StoreError = UniqueViolation | ForeignKeyViolation | CheckViolation

  /** `id` is the id of a row of a table with `count` rows and ids 1..count. */
  predicate IsRowId(id: int, count: nat)
  {
    1 <= id <= count
  }

  /** `username TEXT UNIQUE NOT NULL`. */
  predicate UniqueUsernames(users: seq<string>)
  {
    forall a, b :: 0 <= a < b < |users| ==> users[a] != users[b]
  }

  /** `ideas.user_id` references `users(id)`. */
  predicate IdeasOk(ideas: seq<IdeaRow>, userCount: nat)
  {
    forall k :: 0 <= k < |ideas| ==> IsRowId(ideas[k].userId, userCount)
  }

  predicate IsVoteValue(v: int)
  {
    v == 1 || v == -1
  }

  /** No two vote rows share an (idea, user) key: `UNIQUE(idea_id, user_id)`. */
  predicate UniqueVoteKeys(votes: seq<VoteRow>)
  {
    forall a, b :: 0 <= a < b < |votes| ==>
      votes[a].ideaId != votes[b].ideaId || votes[a].userId != votes[b].userId
  }

  /** `CHECK(vote_type IN (-1, 1))`, the unique key, and the two foreign keys of `votes`. */
  predicate VotesOk(votes: seq<VoteRow>, ideaCount: nat, userCount: nat)
  {
    && UniqueVoteKeys(votes)
    && forall k :: 0 <= k < |votes| ==>
         IsVoteValue(votes[k].voteType)
         && IsRowId(votes[k].ideaId, ideaCount) && IsRowId(votes[k].userId, userCount)
  }

  /** The two foreign keys of `comments`. */
  predicate CommentsOk(comments: seq<CommentRow>, ideaCount: nat, userCount: nat)
  {
    forall k :: 0 <= k < |comments| ==>
      IsRowId(comments[k].ideaId, ideaCount) && IsRowId(comments[k].userId, userCount)
  }

  /** A participant joins a hackathon at most once: the `(hackathon_id, user_id)` conflict target. */
  predicate UniqueParticipants(participants: seq<ParticipantRow>)
  {
    forall a, b :: 0 <= a < b < |participants| ==>
      participants[a].hackathonId != participants[b].hackathonId
      || participants[a].userId != participants[b].userId
  }

  /** Team ids were handed out by the SERIAL counter; `created_by` references `users(id)`. */
  predicate TeamsOk(teams: map<int, TeamRow>, nextTeamId: int, userCount: nat)
  {
    && 1 <= nextTeamId
    && forall t :: t in teams ==> 1 <= t < nextTeamId && IsRowId(teams[t].createdBy, userCount)
  }

  /** `UNIQUE(team_id, user_id)` and both foreign keys of `team_members`. */
  predicate MembersOk(members: seq<MemberRow>, teams: map<int, TeamRow>, userCount: nat)
  {
    && (forall a, b :: 0 <= a < b < |members| ==> members[a] != members[b])
    && forall k :: 0 <= k < |members| ==>
         members[k].teamId in teams && IsRowId(members[k].userId, userCount)
  }

  /** The store: one field per table, plus the SERIAL counter of `teams`. */
  class Database {
    var users: seq<string>
    var ideas: seq<IdeaRow>
    var votes: seq<VoteRow>
    var comments: seq<CommentRow>
    var participants: seq<ParticipantRow>
    var teams: map<int, TeamRow>
    var nextTeamId: int
    var members: seq<MemberRow>

    /** Every constraint of the schema holds. */
    ghost predicate Valid()
      reads this
    {
      && UniqueUsernames(users)
      && IdeasOk(ideas, |users|)
      && VotesOk(votes, |ideas|, |users|)
      && CommentsOk(comments, |ideas|, |users|)
      && UniqueParticipants(participants)
      && TeamsOk(teams, nextTeamId, |users|)
      && MembersOk(members, teams, |users|)
    }

    /** A freshly initialised store: every table empty. */
    constructor ()
      ensures Valid()
      ensures users == [] && ideas == [] && votes == [] && comments == []
      ensures participants == [] && teams == map[] && nextTeamId == 1 && members == []
    {
      users, ideas, votes, comments := [], [], [], [];
      participants, teams, nextTeamId, members := [], map[], 1, [];
    }
  }
}
