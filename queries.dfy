/**
 * The user, idea, vote and comment operations: get-or-create of users by username, the vote
 * upsert and delete keyed on (idea, user), the per-idea vote aggregate with the viewer's own
 * vote, the idea listing by score, and comments in time order.
 */
module Queries {
  import opened Wrappers
  import opened Db
  import Ordering

  datatype User = User(id: int, username: string)

  /**
   * The `userVote` field of an idea: `NotAsked` when no viewer was given (the field is absent),
   * `NoVote` when the viewer has no vote on the idea (SQL NULL), `Voted(v)` otherwise.
   */
  datatype ViewerVote = NotAsked | NoVote | Voted(value: int)

  /** An idea row joined with its author's name and the aggregate of its votes. */
  datatype IdeaView = IdeaView(
    id: int, title: string, description: string, userId: int, username: string, createdAt: int,
    upvotes: nat, downvotes: nat, score: int, userVote: ViewerVote)

  /** A comment row joined with its author's name. */
  datatype CommentView = CommentView(
    id: int, ideaId: int, userId: int, username: string, content: string, createdAt: int)

  // ---------------------------------------------------------------------------------------
  // Users

  /** The position of the row holding `name`, when there is one. */
  function FindUser(users: seq<string>, name: string): (r: Option<nat>)
    ensures r.Some? ==> r.value < |users| && users[r.value] == name
    ensures r.None? <==> name !in users
  {
    if users == [] then None
    else if users[0] == name then Some(0)
    else
      match FindUser(users[1..], name)
      case None => None
      case Some(k) => Some(k + 1)
  }

  /** `getUserByUsername`: exact, case-sensitive match on the unique username. */
  function GetUserByUsername(db: Database, name: string): (r: Option<User>)
    reads db
    ensures r.Some? ==> r.value.username == name && IsRowId(r.value.id, |db.users|)
                        && db.users[r.value.id - 1] == name
    ensures r.None? <==> name !in db.users
  {
    match FindUser(db.users, name)
    case None => None
    case Some(k) => Some(User(k + 1, name))
  }

  /** `getUserById`. */
  function GetUserById(db: Database, id: int): (r: Option<User>)
    reads db
    ensures r.Some? <==> IsRowId(id, |db.users|)
    ensures r.Some? ==> r.value.id == id && r.value.username == db.users[id - 1]
  {
    if IsRowId(id, |db.users|) then Some(User(id, db.users[id - 1])) else None
  }

  /** `createUser`: inserts a user, which fails when the username is taken. */
  method CreateUser(db: Database, name: string) returns (r: Result<User, StoreError>)
    requires db.Valid()
    modifies db
    ensures db.Valid()
    ensures name in old(db.users) ==> r == Failure(UniqueViolation) && unchanged(db)
    ensures name !in old(db.users) ==>
      && db.users == old(db.users) + [name]
      && r == Success(User(|db.users|, name))
      && db.ideas == old(db.ideas) && db.votes == old(db.votes) && db.comments == old(db.comments)
      && db.participants == old(db.participants) && db.teams == old(db.teams)
      && db.nextTeamId == old(db.nextTeamId) && db.members == old(db.members)
  {
    if name in db.users {
      r := Failure(UniqueViolation);
    } else {
      db.users := db.users + [name];
      r := Success(User(|db.users|, name));
    }
  }

  /**
   * `getOrCreateUser`: the existing user of that name, or else a newly inserted one; the
   * users table grows by at most that one row, and nothing else changes.
   */
  method GetOrCreateUser(db: Database, name: string) returns (u: User)
    requires db.Valid()
    modifies db
    ensures db.Valid()
    ensures u.username == name && IsRowId(u.id, |db.users|) && db.users[u.id - 1] == name
    ensures GetUserByUsername(db, name) == Some(u)
    ensures name in old(db.users) ==> db.users == old(db.users) && u == old(GetUserByUsername(db, name)).value
    ensures name !in old(db.users) ==> db.users == old(db.users) + [name] && u.id == |db.users|
    ensures db.ideas == old(db.ideas) && db.votes == old(db.votes) && db.comments == old(db.comments)
    ensures db.participants == old(db.participants) && db.teams == old(db.teams)
    ensures db.nextTeamId == old(db.nextTeamId) && db.members == old(db.members)
  {
    var found := GetUserByUsername(db, name);
    if found.Some? {
      u := found.value;
    } else {
      var created := CreateUser(db, name);
      u := created.value;
    }
    FindUserAt(db.users, u.id - 1);
  }

  /** Under unique usernames the row holding a name is the one `FindUser` reports. */
  lemma {:induction false} FindUserAt(users: seq<string>, k: nat)
    requires UniqueUsernames(users) && k < |users|
    ensures FindUser(users, users[k]) == Some(k)
  {
    if k > 0 {
      var tail := users[1..];
      assert UniqueUsernames(tail) by {
        forall a, b | 0 <= a < b < |tail| ensures tail[a] != tail[b] {
          assert tail[a] == users[a + 1] && tail[b] == users[b + 1];
        }
      }
      assert tail[k - 1] == users[k];
      FindUserAt(tail, k - 1);
    }
  }

  /** Get-or-create twice with one name yields the same user and adds at most one row. */
  method GetOrCreateUserTwice(db: Database, name: string) returns (first: User, second: User)
    requires db.Valid()
    modifies db
    ensures db.Valid()
    ensures first == second && first.username == name
    ensures |db.users| <= |old(db.users)| + 1 && multiset(db.users)[name] == 1
  {
    first := GetOrCreateUser(db, name);
    second := GetOrCreateUser(db, name);
    UniqueCount(db.users, first.id - 1);
  }

  /** In a table of distinct usernames each occurs once. */
  lemma {:induction false} UniqueCount(users: seq<string>, k: nat)
    requires UniqueUsernames(users) && k < |users|
    ensures multiset(users)[users[k]] == 1
  {
    var last := |users| - 1;
    var init := users[..last];
    assert users == init + [users[last]];
    assert UniqueUsernames(init) by {
      forall a, b | 0 <= a < b < |init| ensures init[a] != init[b] {
        assert init[a] == users[a] && init[b] == users[b];
      }
    }
    if k == last {
      assert users[k] !in init by {
        forall m | 0 <= m < |init| ensures init[m] != users[k] { assert init[m] == users[m]; }
      }
    } else {
      assert init[k] == users[k];
      assert users[last] != users[k];
      UniqueCount(init, k);
    }
  }

  // ---------------------------------------------------------------------------------------
  // Votes: the table under the unique (idea, user) key

  predicate HasKey(row: VoteRow, ideaId: int, userId: int)
  {
    row.ideaId == ideaId && row.userId == userId
  }

  /** The position of the vote row with key (ideaId, userId), when there is one. */
  function FindVote(votes: seq<VoteRow>, ideaId: int, userId: int): (r: Option<nat>)
    ensures r.Some? ==> r.value < |votes| && HasKey(votes[r.value], ideaId, userId)
    ensures r.None? <==> forall k :: 0 <= k < |votes| ==> !HasKey(votes[k], ideaId, userId)
  {
    if votes == [] then None
    else if HasKey(votes[0], ideaId, userId) then Some(0)
    else
      match FindVote(votes[1..], ideaId, userId)
      case None =>
        assert forall k :: 1 <= k < |votes| ==> votes[k] == votes[1..][k - 1];
        None
      case Some(k) => Some(k + 1)
  }

  /** The stored vote value of a user on an idea. */
  function VoteOf(votes: seq<VoteRow>, ideaId: int, userId: int): (r: Option<int>)
    ensures r.Some? ==> exists k :: 0 <= k < |votes| && votes[k] == VoteRow(ideaId, userId, r.value)
    ensures r.None? <==> forall k :: 0 <= k < |votes| ==> !HasKey(votes[k], ideaId, userId)
  {
    match FindVote(votes, ideaId, userId)
    case None => None
    case Some(k) => Some(votes[k].voteType)
  }

  /** Under the unique key, any row with the key holds the value `VoteOf` reports. */
  lemma VoteOfRow(votes: seq<VoteRow>, k: nat)
    requires UniqueVoteKeys(votes) && k < |votes|
    ensures VoteOf(votes, votes[k].ideaId, votes[k].userId) == Some(votes[k].voteType)
  {
    var i, u := votes[k].ideaId, votes[k].userId;
    var f := FindVote(votes, i, u);
    assert f.Some?;
  }

  /**
   * `INSERT ... ON CONFLICT(idea_id, user_id) DO UPDATE SET vote_type = excluded.vote_type`:
   * the row with the key is overwritten in place, or a row is appended.
   */
  function Upserted(votes: seq<VoteRow>, ideaId: int, userId: int, voteType: int): (r: seq<VoteRow>)
    ensures VoteRow(ideaId, userId, voteType) in r
    ensures forall row :: row in r ==> row == VoteRow(ideaId, userId, voteType) || row in votes
    ensures forall row :: row in votes && !HasKey(row, ideaId, userId) ==> row in r
    ensures |r| == |votes| + (if VoteOf(votes, ideaId, userId).None? then 1 else 0)
  {
    match FindVote(votes, ideaId, userId)
    case Some(k) =>
      var r := votes[k := VoteRow(ideaId, userId, voteType)];
      assert r[k] == VoteRow(ideaId, userId, voteType);
      assert forall j :: 0 <= j < |votes| && j != k ==> r[j] == votes[j];
      r
    case None => votes + [VoteRow(ideaId, userId, voteType)]
  }

  /** `DELETE FROM votes WHERE idea_id = ? AND user_id = ?`. */
  function Removed(votes: seq<VoteRow>, ideaId: int, userId: int): (r: seq<VoteRow>)
    ensures forall k :: 0 <= k < |r| ==> !HasKey(r[k], ideaId, userId)
    ensures forall row :: row in r <==> row in votes && !HasKey(row, ideaId, userId)
  {
    if votes == [] then []
    else if HasKey(votes[0], ideaId, userId) then Removed(votes[1..], ideaId, userId)
    else
      assert votes == [votes[0]] + votes[1..];
      [votes[0]] + Removed(votes[1..], ideaId, userId)
  }

  /** Deleting a key that has no row changes nothing. */
  lemma {:induction false} RemovedAbsent(votes: seq<VoteRow>, ideaId: int, userId: int)
    requires VoteOf(votes, ideaId, userId).None?
    ensures Removed(votes, ideaId, userId) == votes
  {
    if votes != [] {
      assert !HasKey(votes[0], ideaId, userId);
      assert forall k :: 0 <= k < |votes[1..]| ==> votes[1..][k] == votes[k + 1];
      RemovedAbsent(votes[1..], ideaId, userId);
      assert votes == [votes[0]] + votes[1..];
    }
  }

  /** A subsequence-by-membership of a table with unique keys has unique keys. */
  lemma {:induction false} RemovedUnique(votes: seq<VoteRow>, ideaId: int, userId: int)
    requires UniqueVoteKeys(votes)
    ensures UniqueVoteKeys(Removed(votes, ideaId, userId))
  {
    if votes != [] {
      var tail := votes[1..];
      assert UniqueVoteKeys(tail) by {
        forall a, b | 0 <= a < b < |tail|
          ensures tail[a].ideaId != tail[b].ideaId || tail[a].userId != tail[b].userId
        {
          assert tail[a] == votes[a + 1] && tail[b] == votes[b + 1];
        }
      }
      RemovedUnique(tail, ideaId, userId);
      if !HasKey(votes[0], ideaId, userId) {
        var rest := Removed(tail, ideaId, userId);
        forall k | 0 <= k < |rest|
          ensures votes[0].ideaId != rest[k].ideaId || votes[0].userId != rest[k].userId
        {
          assert rest[k] in tail;
          var m :| 0 <= m < |tail| && tail[m] == rest[k];
          assert votes[m + 1] == rest[k];
        }
      }
    }
  }

  /**
   * After `upsertVote(i, u, v)` the vote of (i, u) is `v`, every other key keeps its vote, and
   * the key stays unique.
   */
  lemma UpsertedLookup(votes: seq<VoteRow>, ideaId: int, userId: int, voteType: int, i: int, u: int)
    requires UniqueVoteKeys(votes)
    ensures UniqueVoteKeys(Upserted(votes, ideaId, userId, voteType))
    ensures VoteOf(Upserted(votes, ideaId, userId, voteType), i, u)
            == if i == ideaId && u == userId then Some(voteType) else VoteOf(votes, i, u)
  {
    UpsertedUnique(votes, ideaId, userId, voteType);
    if i == ideaId && u == userId {
      var r := Upserted(votes, ideaId, userId, voteType);
      var f := FindVote(votes, ideaId, userId);
      var k := if f.Some? then f.value else |votes|;
      assert r[k] == VoteRow(ideaId, userId, voteType);
      VoteOfRow(r, k);
    } else {
      UpsertedOthers(votes, ideaId, userId, voteType, i, u);
    }
  }

  /** The upsert leaves the vote of every other key as it was. */
  lemma UpsertedOthers(votes: seq<VoteRow>, ideaId: int, userId: int, voteType: int, i: int, u: int)
    requires UniqueVoteKeys(votes) && !(i == ideaId && u == userId)
    ensures VoteOf(Upserted(votes, ideaId, userId, voteType), i, u) == VoteOf(votes, i, u)
  {
    var r := Upserted(votes, ideaId, userId, voteType);
    var f := FindVote(votes, ideaId, userId);
    UpsertedUnique(votes, ideaId, userId, voteType);
    match VoteOf(votes, i, u)
    case None =>
      forall m | 0 <= m < |r| ensures !HasKey(r[m], i, u) {
        if m < |votes| && !(f.Some? && m == f.value) { assert r[m] == votes[m]; }
      }
    case Some(v) =>
      var m :| 0 <= m < |votes| && votes[m] == VoteRow(i, u, v);
      assert r[m] == votes[m];
      VoteOfRow(r, m);
  }

  /** The upsert keeps the (idea, user) key unique. */
  lemma UpsertedUnique(votes: seq<VoteRow>, ideaId: int, userId: int, voteType: int)
    requires UniqueVoteKeys(votes)
    ensures UniqueVoteKeys(Upserted(votes, ideaId, userId, voteType))
  {
    var r := Upserted(votes, ideaId, userId, voteType);
    var f := FindVote(votes, ideaId, userId);
    assert forall k :: 0 <= k < |r| ==> r[k].ideaId == (if k < |votes| then votes[k].ideaId else ideaId);
    forall a, b | 0 <= a < b < |r| ensures r[a].ideaId != r[b].ideaId || r[a].userId != r[b].userId {
      if b == |votes| {
        assert f.None?;
        assert !HasKey(votes[a], ideaId, userId);
      }
    }
  }

  /** After `removeVote(i, u)` (i, u) has no vote and every other key keeps its vote. */
  lemma RemovedLookup(votes: seq<VoteRow>, ideaId: int, userId: int, i: int, u: int)
    requires UniqueVoteKeys(votes)
    ensures UniqueVoteKeys(Removed(votes, ideaId, userId))
    ensures VoteOf(Removed(votes, ideaId, userId), i, u)
            == if i == ideaId && u == userId then None else VoteOf(votes, i, u)
  {
    var r := Removed(votes, ideaId, userId);
    RemovedUnique(votes, ideaId, userId);
    if !(i == ideaId && u == userId) {
      match VoteOf(votes, i, u)
      case None =>
        forall m | 0 <= m < |r| ensures !HasKey(r[m], i, u) {
          assert r[m] in votes;
        }
      case Some(v) =>
        var m :| 0 <= m < |votes| && votes[m] == VoteRow(i, u, v);
        assert votes[m] in r;
        var n :| 0 <= n < |r| && r[n] == votes[m];
        VoteOfRow(r, n);
    }
  }

  /** What the vote route asks of the store for one request: delete the key, or upsert a value. */
  datatype VoteAction = Remove | Upsert(voteType: int)

  /** One vote request by a user on an idea. */
  datatype Cast = Cast(ideaId: int, userId: int, action: VoteAction)

  function Apply(votes: seq<VoteRow>, c: Cast): seq<VoteRow>
  {
    match c.action
    case Remove => Removed(votes, c.ideaId, c.userId)
    case Upsert(v) => Upserted(votes, c.ideaId, c.userId, v)
  }

  /** The table after a sequence of vote requests, in order. */
  function Replay(votes: seq<VoteRow>, casts: seq<Cast>): seq<VoteRow>
    decreases |casts|
  {
    if casts == [] then votes else Replay(Apply(votes, casts[0]), casts[1..])
  }

  /** The vote (i, u) ends with: the last request on that key decides, and no request keeps it. */
  function LastWrite(casts: seq<Cast>, i: int, u: int, initial: Option<int>): Option<int>
    decreases |casts|
  {
    if casts == [] then initial
    else
      var c := casts[|casts| - 1];
      if c.ideaId == i && c.userId == u then
        match c.action
        case Remove => None
        case Upsert(v) => Some(v)
      else LastWrite(casts[..|casts| - 1], i, u, initial)
  }

  /** Last write wins: after any sequence of upserts and removes, each key holds its last write. */
  lemma {:induction false} ReplayLastWriteWins(votes: seq<VoteRow>, casts: seq<Cast>, i: int, u: int)
    requires UniqueVoteKeys(votes)
    ensures UniqueVoteKeys(Replay(votes, casts))
    ensures VoteOf(Replay(votes, casts), i, u) == LastWrite(casts, i, u, VoteOf(votes, i, u))
    decreases |casts|
  {
    if casts != [] {
      var c := casts[0];
      var next := Apply(votes, c);
      match c.action {
        case Remove => RemovedLookup(votes, c.ideaId, c.userId, i, u);
        case Upsert(v) => UpsertedLookup(votes, c.ideaId, c.userId, v, i, u);
      }
      ReplayLastWriteWins(next, casts[1..], i, u);
      LastWriteFirst(casts, i, u, VoteOf(votes, i, u));
    }
  }

  /** Peeling the first request off the front, in terms of `LastWrite` from the back. */
  lemma {:induction false} LastWriteFirst(casts: seq<Cast>, i: int, u: int, initial: Option<int>)
    requires casts != []
    ensures LastWrite(casts, i, u, initial)
            == LastWrite(casts[1..], i, u, LastWrite([casts[0]], i, u, initial))
    decreases |casts|
  {
    if |casts| > 1 {
      var init := casts[..|casts| - 1];
      assert init[1..] == casts[1..][..|casts[1..]| - 1];
      assert init[0] == casts[0];
      LastWriteFirst(init, i, u, initial);
    }
  }

  // ---------------------------------------------------------------------------------------
  // The per-idea aggregate

  /** `SUM(CASE WHEN v.vote_type = 1 THEN 1 ELSE 0 END)` over the idea's vote rows. */
  function Upvotes(votes: seq<VoteRow>, ideaId: int): nat
  {
    if votes == [] then 0
    else (if votes[0].ideaId == ideaId && votes[0].voteType == 1 then 1 else 0) + Upvotes(votes[1..], ideaId)
  }

  /** `SUM(CASE WHEN v.vote_type = -1 THEN 1 ELSE 0 END)` over the idea's vote rows. */
  function Downvotes(votes: seq<VoteRow>, ideaId: int): nat
  {
    if votes == [] then 0
    else (if votes[0].ideaId == ideaId && votes[0].voteType == -1 then 1 else 0) + Downvotes(votes[1..], ideaId)
  }

  /** `COALESCE(SUM(v.vote_type), 0)` over the idea's vote rows. */
  function Score(votes: seq<VoteRow>, ideaId: int): int
  {
    if votes == [] then 0
    else (if votes[0].ideaId == ideaId then votes[0].voteType else 0) + Score(votes[1..], ideaId)
  }

  /** With every stored vote in {-1, 1}, `score == upvotes - downvotes`. */
  lemma {:induction false} ScoreIsUpvotesMinusDownvotes(votes: seq<VoteRow>, ideaId: int)
    requires forall k :: 0 <= k < |votes| ==> IsVoteValue(votes[k].voteType)
    ensures Score(votes, ideaId) == Upvotes(votes, ideaId) - Downvotes(votes, ideaId)
  {
    if votes != [] {
      ScoreIsUpvotesMinusDownvotes(votes[1..], ideaId);
    }
  }

  /** An idea without vote rows has zero upvotes, downvotes and score (the `COALESCE`). */
  lemma {:induction false} NoVotesAggregate(votes: seq<VoteRow>, ideaId: int)
    requires forall k :: 0 <= k < |votes| ==> votes[k].ideaId != ideaId
    ensures Upvotes(votes, ideaId) == 0 && Downvotes(votes, ideaId) == 0 && Score(votes, ideaId) == 0
  {
    if votes != [] {
      NoVotesAggregate(votes[1..], ideaId);
    }
  }

  /** Three upvotes and one downvote make a score of 2. */
  lemma ThreeUpOneDown(i: int)
    ensures var votes := [VoteRow(i, 1, 1), VoteRow(i, 2, 1), VoteRow(i, 3, -1), VoteRow(i, 4, 1)];
            Upvotes(votes, i) == 3 && Downvotes(votes, i) == 1 && Score(votes, i) == 2
  {
    var v4 := [VoteRow(i, 4, 1)];
    var v3 := [VoteRow(i, 3, -1)] + v4;
    var v2 := [VoteRow(i, 2, 1)] + v3;
    var v1 := [VoteRow(i, 1, 1)] + v2;
    assert v4[1..] == [] && v3[1..] == v4 && v2[1..] == v3 && v1[1..] == v2;
    assert Upvotes(v4, i) == 1 && Downvotes(v4, i) == 0 && Score(v4, i) == 1;
    assert Upvotes(v3, i) == 1 && Downvotes(v3, i) == 1 && Score(v3, i) == 0;
    assert Upvotes(v2, i) == 2 && Downvotes(v2, i) == 1 && Score(v2, i) == 1;
    assert v1 == [VoteRow(i, 1, 1), VoteRow(i, 2, 1), VoteRow(i, 3, -1), VoteRow(i, 4, 1)];
  }

  /** `userId ? ... : ...`: a viewer id takes part only when it is truthy (present and non-zero). */
  predicate ViewerGiven(viewer: Option<int>)
  {
    viewer.Some? && viewer.value != 0
  }

  function Annotation(votes: seq<VoteRow>, ideaId: int, viewer: Option<int>): ViewerVote
  {
    if !ViewerGiven(viewer) then NotAsked
    else
      match VoteOf(votes, ideaId, viewer.value)
      case None => NoVote
      case Some(v) => Voted(v)
  }

  /**
   * The row `getIdeaById(id, viewer)` returns, on table values: the idea joined with its author
   * and aggregated over `LEFT JOIN votes`; `None` when no idea has that id or its author is missing.
   */
  function View(ideas: seq<IdeaRow>, users: seq<string>, votes: seq<VoteRow>, id: int, viewer: Option<int>)
    : Option<IdeaView>
  {
    if IsRowId(id, |ideas|) && IsRowId(ideas[id - 1].userId, |users|) then
      var row := ideas[id - 1];
      Some(IdeaView(id, row.title, row.description, row.userId, users[row.userId - 1], row.createdAt,
                    Upvotes(votes, id), Downvotes(votes, id), Score(votes, id), Annotation(votes, id, viewer)))
    else None
  }

  /** `getIdeaById`. */
  function IdeaById(db: Database, id: int, viewer: Option<int>): (r: Option<IdeaView>)
    reads db
    ensures r.Some? <==> IsRowId(id, |db.ideas|) && GetUserById(db, db.ideas[id - 1].userId).Some?
    ensures r.Some? ==>
      && r.value.id == id && r.value.title == db.ideas[id - 1].title
      && r.value.description == db.ideas[id - 1].description
      && r.value.createdAt == db.ideas[id - 1].createdAt
      && Some(User(r.value.userId, r.value.username)) == GetUserById(db, db.ideas[id - 1].userId)
    ensures r.Some? ==>
      && (r.value.userVote == NotAsked <==> !ViewerGiven(viewer))
      && (ViewerGiven(viewer) ==> (r.value.userVote == NoVote <==> VoteOf(db.votes, id, viewer.value).None?))
  {
    View(db.ideas, db.users, db.votes, id, viewer)
  }

  /**
   * What `getIdeaById` promises about its row: it is the idea with that id, its counts are those
   * of +1 and -1 rows, its score is their difference, and `userVote` is the viewer's stored
   * vote when a truthy viewer id is given, absent otherwise.
   */
  lemma IdeaAggregate(db: Database, id: int, viewer: Option<int>)
    requires db.Valid()
    ensures IdeaById(db, id, viewer).Some? <==> IsRowId(id, |db.ideas|)
    ensures IdeaById(db, id, viewer).Some? ==>
      var r := IdeaById(db, id, viewer).value;
      && r.id == id && r.title == db.ideas[id - 1].title && r.description == db.ideas[id - 1].description
      && r.username == db.users[db.ideas[id - 1].userId - 1]
      && r.upvotes == Upvotes(db.votes, id) && r.downvotes == Downvotes(db.votes, id)
      && r.score == r.upvotes - r.downvotes
      && (!ViewerGiven(viewer) <==> r.userVote == NotAsked)
      && (ViewerGiven(viewer) ==>
            (r.userVote == NoVote <==> VoteOf(db.votes, id, viewer.value).None?)
            && forall v :: r.userVote == Voted(v) <==> VoteOf(db.votes, id, viewer.value) == Some(v))
  {
    ScoreIsUpvotesMinusDownvotes(db.votes, id);
  }

  /** `ORDER BY score DESC, i.created_at DESC`. */
  predicate IdeaBefore(a: IdeaView, b: IdeaView)
  {
    a.score > b.score || (a.score == b.score && a.createdAt >= b.createdAt)
  }

  lemma IdeaBeforeTotal()
    ensures Ordering.TotalPreorder(IdeaBefore)
  {
  }

  /** The joined rows for ideas 1..n, in id order. */
  function Views(ideas: seq<IdeaRow>, users: seq<string>, votes: seq<VoteRow>, viewer: Option<int>, n: nat)
    : seq<IdeaView>
    requires n <= |ideas|
  {
    if n == 0 then []
    else
      Views(ideas, users, votes, viewer, n - 1)
      + match View(ideas, users, votes, n, viewer) case None => [] case Some(v) => [v]
  }

  /** Under the foreign key on `ideas.user_id` every idea is joined, once, in id order. */
  lemma {:induction false} ViewsComplete(ideas: seq<IdeaRow>, users: seq<string>, votes: seq<VoteRow>, viewer: Option<int>, n: nat)
    requires n <= |ideas| && IdeasOk(ideas, |users|)
    ensures |Views(ideas, users, votes, viewer, n)| == n
    ensures forall k :: 0 <= k < n ==> Some(Views(ideas, users, votes, viewer, n)[k]) == View(ideas, users, votes, k + 1, viewer)
  {
    if n > 0 {
      ViewsComplete(ideas, users, votes, viewer, n - 1);
      var prev := Views(ideas, users, votes, viewer, n - 1);
      assert IsRowId(ideas[n - 1].userId, |users|);
      var v := View(ideas, users, votes, n, viewer);
      assert Views(ideas, users, votes, viewer, n) == prev + [v.value];
    }
  }

  /** `getAllIdeas`: every joined idea with its aggregate, by score and then newest first. */
  function AllIdeas(db: Database, viewer: Option<int>): (r: seq<IdeaView>)
    reads db
    ensures Ordering.SortedBy(r, IdeaBefore)
    ensures forall v :: v in r ==> IdeaById(db, v.id, viewer) == Some(v)
  {
    IdeaBeforeTotal();
    var vs := Views(db.ideas, db.users, db.votes, viewer, |db.ideas|);
    ViewsSound(db.ideas, db.users, db.votes, viewer, |db.ideas|);
    Ordering.SortSameElements(vs, IdeaBefore);
    Ordering.Sort(vs, IdeaBefore)
  }

  /** Every joined row is the view of its own id. */
  lemma {:induction false} ViewsSound(ideas: seq<IdeaRow>, users: seq<string>, votes: seq<VoteRow>, viewer: Option<int>, n: nat)
    requires n <= |ideas|
    ensures forall v :: v in Views(ideas, users, votes, viewer, n) ==> View(ideas, users, votes, v.id, viewer) == Some(v)
  {
    if n > 0 {
      ViewsSound(ideas, users, votes, viewer, n - 1);
    }
  }

  /**
   * The listing is ordered by score descending, then creation time descending, holds exactly
   * the rows `getIdeaById` gives, and holds each idea exactly once.
   */
  lemma AllIdeasListing(db: Database, viewer: Option<int>)
    requires db.Valid()
    ensures Ordering.SortedBy(AllIdeas(db, viewer), IdeaBefore)
    ensures |AllIdeas(db, viewer)| == |db.ideas|
    ensures forall v :: v in AllIdeas(db, viewer) ==> IdeaById(db, v.id, viewer) == Some(v)
    ensures forall id :: IsRowId(id, |db.ideas|) ==> multiset(AllIdeas(db, viewer))[IdeaById(db, id, viewer).value] == 1
  {
    var vs := Views(db.ideas, db.users, db.votes, viewer, |db.ideas|);
    ViewsComplete(db.ideas, db.users, db.votes, viewer, |db.ideas|);
    AllIdeasRows(db, viewer, vs);
    ViewsOnce(db.ideas, db.users, db.votes, viewer, vs);
  }

  /** When row k of a listing is idea k + 1, every idea occurs in it exactly once. */
  lemma ViewsOnce(ideas: seq<IdeaRow>, users: seq<string>, votes: seq<VoteRow>, viewer: Option<int>, vs: seq<IdeaView>)
    requires |vs| == |ideas|
    requires forall k :: 0 <= k < |vs| ==> Some(vs[k]) == View(ideas, users, votes, k + 1, viewer)
    ensures forall id :: IsRowId(id, |ideas|) ==> multiset(vs)[View(ideas, users, votes, id, viewer).value] == 1
  {
    assert forall k :: 0 <= k < |vs| ==> vs[k].id == k + 1;
    forall id | IsRowId(id, |ideas|) ensures multiset(vs)[View(ideas, users, votes, id, viewer).value] == 1 {
      assert Some(vs[id - 1]) == View(ideas, users, votes, id, viewer);
      MultiplicityOne(vs, id - 1);
    }
  }

  lemma AllIdeasRows(db: Database, viewer: Option<int>, vs: seq<IdeaView>)
    requires vs == Views(db.ideas, db.users, db.votes, viewer, |db.ideas|)
    requires forall k :: 0 <= k < |vs| ==> Some(vs[k]) == View(db.ideas, db.users, db.votes, k + 1, viewer)
    ensures multiset(AllIdeas(db, viewer)) == multiset(vs)
    ensures forall v :: v in AllIdeas(db, viewer) ==> IdeaById(db, v.id, viewer) == Some(v)
  {
    var r := AllIdeas(db, viewer);
    forall v | v in r ensures IdeaById(db, v.id, viewer) == Some(v) {
      assert v in multiset(r);
      assert v in vs;
      var k :| 0 <= k < |vs| && vs[k] == v;
      assert Some(vs[k]) == View(db.ideas, db.users, db.votes, k + 1, viewer);
    }
  }

  /** Rows with distinct ids occur once each. */
  lemma {:induction false} MultiplicityOne(vs: seq<IdeaView>, k: nat)
    requires k < |vs|
    requires forall a, b :: 0 <= a < b < |vs| ==> vs[a].id != vs[b].id
    ensures multiset(vs)[vs[k]] == 1
  {
    var last := |vs| - 1;
    var init := vs[..last];
    assert vs == init + [vs[last]];
    if k == last {
      assert vs[k] !in init by {
        forall m | 0 <= m < |init| ensures init[m] != vs[k] { assert init[m] == vs[m]; }
      }
    } else {
      assert init[k] == vs[k];
      MultiplicityOne(init, k);
    }
  }

  // ---------------------------------------------------------------------------------------
  // Ideas, votes and comments as statements on the store

  /**
   * `createIdea`: appends an idea by an existing user and returns it with an empty aggregate;
   * a missing author violates the foreign key.
   */
  method CreateIdea(db: Database, title: string, description: string, userId: int, now: int)
    returns (r: Result<Option<IdeaView>, StoreError>)
    requires db.Valid()
    modifies db
    ensures db.Valid()
    ensures !IsRowId(userId, |old(db.users)|) ==> r == Failure(ForeignKeyViolation) && unchanged(db)
    ensures IsRowId(userId, |old(db.users)|) ==>
      && db.ideas == old(db.ideas) + [IdeaRow(title, description, userId, now)]
      && r == Success(IdeaById(db, |db.ideas|, None))
      && r.value.Some? && r.value.value.title == title && r.value.value.description == description
      && r.value.value.userId == userId && r.value.value.userVote == NotAsked
      && r.value.value.upvotes == 0 && r.value.value.downvotes == 0 && r.value.value.score == 0
      && db.users == old(db.users) && db.votes == old(db.votes) && db.comments == old(db.comments)
      && db.participants == old(db.participants) && db.teams == old(db.teams)
      && db.nextTeamId == old(db.nextTeamId) && db.members == old(db.members)
  {
    if !IsRowId(userId, |db.users|) {
      r := Failure(ForeignKeyViolation);
      return;
    }
    db.ideas := db.ideas + [IdeaRow(title, description, userId, now)];
    NoVotesAggregate(db.votes, |db.ideas|);
    r := Success(IdeaById(db, |db.ideas|, None));
  }

  /** Adding a row keeps `VotesOk` when its value and both references are valid. */
  lemma UpsertedOk(votes: seq<VoteRow>, ideaId: int, userId: int, voteType: int, ideaCount: nat, userCount: nat)
    requires VotesOk(votes, ideaCount, userCount)
    requires IsVoteValue(voteType) && IsRowId(ideaId, ideaCount) && IsRowId(userId, userCount)
    ensures VotesOk(Upserted(votes, ideaId, userId, voteType), ideaCount, userCount)
  {
    UpsertedLookup(votes, ideaId, userId, voteType, ideaId, userId);
  }

  /**
   * `upsertVote`: stores `voteType` under (idea, user) and returns the recomputed aggregate seen
   * by that user. A value outside {-1, 1} breaks the CHECK; a missing idea or user breaks a
   * foreign key; either way nothing changes.
   */
  method UpsertVote(db: Database, ideaId: int, userId: int, voteType: int)
    returns (r: Result<Option<IdeaView>, StoreError>)
    requires db.Valid()
    modifies db
    ensures db.Valid()
    ensures !IsVoteValue(voteType) ==> r == Failure(CheckViolation) && unchanged(db)
    ensures IsVoteValue(voteType) && !(IsRowId(ideaId, |old(db.ideas)|) && IsRowId(userId, |old(db.users)|)) ==>
      r == Failure(ForeignKeyViolation) && unchanged(db)
    ensures IsVoteValue(voteType) && IsRowId(ideaId, |old(db.ideas)|) && IsRowId(userId, |old(db.users)|) ==>
      && db.votes == Upserted(old(db.votes), ideaId, userId, voteType)
      && r == Success(IdeaById(db, ideaId, Some(userId)))
      && r.value.Some? && r.value.value.userVote == Voted(voteType)
      && db.users == old(db.users) && db.ideas == old(db.ideas) && db.comments == old(db.comments)
      && db.participants == old(db.participants) && db.teams == old(db.teams)
      && db.nextTeamId == old(db.nextTeamId) && db.members == old(db.members)
  {
    if !IsVoteValue(voteType) {
      r := Failure(CheckViolation);
      return;
    }
    if !(IsRowId(ideaId, |db.ideas|) && IsRowId(userId, |db.users|)) {
      r := Failure(ForeignKeyViolation);
      return;
    }
    UpsertedOk(db.votes, ideaId, userId, voteType, |db.ideas|, |db.users|);
    UpsertedLookup(db.votes, ideaId, userId, voteType, ideaId, userId);
    db.votes := Upserted(db.votes, ideaId, userId, voteType);
    r := Success(IdeaById(db, ideaId, Some(userId)));
  }

  /**
   * `removeVote`: deletes the (idea, user) row if there is one and returns the recomputed
   * aggregate seen by that user.
   */
  method RemoveVote(db: Database, ideaId: int, userId: int) returns (r: Option<IdeaView>)
    requires db.Valid()
    modifies db
    ensures db.Valid()
    ensures db.votes == Removed(old(db.votes), ideaId, userId)
    ensures VoteOf(old(db.votes), ideaId, userId).None? ==> db.votes == old(db.votes)
    ensures r == IdeaById(db, ideaId, Some(userId))
    ensures r.Some? && userId != 0 ==> r.value.userVote == NoVote
    ensures db.users == old(db.users) && db.ideas == old(db.ideas) && db.comments == old(db.comments)
    ensures db.participants == old(db.participants) && db.teams == old(db.teams)
    ensures db.nextTeamId == old(db.nextTeamId) && db.members == old(db.members)
  {
    RemovedLookup(db.votes, ideaId, userId, ideaId, userId);
    if VoteOf(db.votes, ideaId, userId).None? {
      RemovedAbsent(db.votes, ideaId, userId);
    }
    db.votes := Removed(db.votes, ideaId, userId);
    r := IdeaById(db, ideaId, Some(userId));
  }

  /** `getCommentById`: the comment joined with its author. */
  function CommentById(db: Database, id: int): (r: Option<CommentView>)
    reads db
    ensures r.Some? <==> IsRowId(id, |db.comments|) && GetUserById(db, db.comments[id - 1].userId).Some?
    ensures r.Some? ==>
      && r.value.id == id && r.value.ideaId == db.comments[id - 1].ideaId
      && r.value.content == db.comments[id - 1].content && r.value.createdAt == db.comments[id - 1].createdAt
      && Some(User(r.value.userId, r.value.username)) == GetUserById(db, db.comments[id - 1].userId)
  {
    JoinedComment(db.comments, db.users, id)
  }

  /** The comment with that id joined with its author, on table values. */
  function JoinedComment(comments: seq<CommentRow>, users: seq<string>, id: int): Option<CommentView>
  {
    if IsRowId(id, |comments|) && IsRowId(comments[id - 1].userId, |users|) then
      var c := comments[id - 1];
      Some(CommentView(id, c.ideaId, c.userId, users[c.userId - 1], c.content, c.createdAt))
    else None
  }

  /**
   * `createComment`: appends a comment by an existing user on an existing idea and returns it;
   * a missing idea or user violates a foreign key and nothing changes.
   */
  method CreateComment(db: Database, ideaId: int, userId: int, content: string, now: int)
    returns (r: Result<Option<CommentView>, StoreError>)
    requires db.Valid()
    modifies db
    ensures db.Valid()
    ensures !(IsRowId(ideaId, |old(db.ideas)|) && IsRowId(userId, |old(db.users)|)) ==>
      r == Failure(ForeignKeyViolation) && unchanged(db)
    ensures IsRowId(ideaId, |old(db.ideas)|) && IsRowId(userId, |old(db.users)|) ==>
      && db.users == old(db.users) && db.ideas == old(db.ideas) && db.votes == old(db.votes)
      && db.comments == old(db.comments) + [CommentRow(ideaId, userId, content, now)]
      && r == Success(Some(CommentView(|db.comments|, ideaId, userId, db.users[userId - 1], content, now)))
      && db.participants == old(db.participants) && db.teams == old(db.teams)
      && db.nextTeamId == old(db.nextTeamId) && db.members == old(db.members)
  {
    if !(IsRowId(ideaId, |db.ideas|) && IsRowId(userId, |db.users|)) {
      r := Failure(ForeignKeyViolation);
      return;
    }
    db.comments := db.comments + [CommentRow(ideaId, userId, content, now)];
    r := Success(CommentById(db, |db.comments|));
  }

  /** `ORDER BY c.created_at ASC`. */
  predicate CommentBefore(a: CommentView, b: CommentView)
  {
    a.createdAt <= b.createdAt
  }

  /** The joined comments 1..n on one idea, in id order. */
  function IdeaComments(comments: seq<CommentRow>, users: seq<string>, ideaId: int, n: nat): seq<CommentView>
    requires n <= |comments|
  {
    if n == 0 then [] else IdeaComments(comments, users, ideaId, n - 1) + CommentOn(comments, users, ideaId, n)
  }

  /** The joined comment with that id when it is on the idea, as a list of at most one row. */
  function CommentOn(comments: seq<CommentRow>, users: seq<string>, ideaId: int, id: int): (r: seq<CommentView>)
    ensures |r| <= 1 && forall d :: d in r ==> d.id == id
  {
    match JoinedComment(comments, users, id)
    case Some(c) => if c.ideaId == ideaId then [c] else []
    case None => []
  }

  /** `getCommentsByIdeaId`: the idea's comments, oldest first. */
  function CommentsByIdeaId(db: Database, ideaId: int): (r: seq<CommentView>)
    reads db
    ensures Ordering.SortedBy(r, CommentBefore)
    ensures forall c :: c in r ==> c.ideaId == ideaId && CommentById(db, c.id) == Some(c)
  {
    var all := IdeaComments(db.comments, db.users, ideaId, |db.comments|);
    IdeaCommentsSound(db.comments, db.users, ideaId, |db.comments|);
    Ordering.SortSameElements(all, CommentBefore);
    Ordering.Sort(all, CommentBefore)
  }

  /** Every comment listed is on the idea and is the joined row of its id. */
  lemma {:induction false} IdeaCommentsSound(comments: seq<CommentRow>, users: seq<string>, ideaId: int, n: nat)
    requires n <= |comments|
    ensures forall c :: c in IdeaComments(comments, users, ideaId, n) ==>
      c.ideaId == ideaId && 1 <= c.id <= n && JoinedComment(comments, users, c.id) == Some(c)
  {
    if n > 0 {
      IdeaCommentsSound(comments, users, ideaId, n - 1);
    }
  }

  /** Under the foreign key on `comments.user_id` every comment row on the idea is joined. */
  lemma {:induction false} IdeaCommentsComplete(comments: seq<CommentRow>, users: seq<string>, ideaId: int, n: nat, k: nat)
    requires n <= |comments| && k < n
    requires comments[k].ideaId == ideaId && IsRowId(comments[k].userId, |users|)
    ensures JoinedComment(comments, users, k + 1).Some?
    ensures JoinedComment(comments, users, k + 1).value in IdeaComments(comments, users, ideaId, n)
  {
    if k < n - 1 {
      IdeaCommentsComplete(comments, users, ideaId, n - 1, k);
    }
  }

  /** A comment on the idea whose author exists is collected exactly once. */
  lemma IdeaCommentsOnce(comments: seq<CommentRow>, users: seq<string>, ideaId: int, n: nat, k: nat)
    requires n <= |comments| && k < n
    requires comments[k].ideaId == ideaId && IsRowId(comments[k].userId, |users|)
    ensures JoinedComment(comments, users, k + 1).Some?
    ensures multiset(IdeaComments(comments, users, ideaId, n))[JoinedComment(comments, users, k + 1).value] == 1
  {
    IdeaCommentsComplete(comments, users, ideaId, n, k);
    IdeaCommentsIncreasing(comments, users, ideaId, n);
    OnceWhenIncreasing(IdeaComments(comments, users, ideaId, n), JoinedComment(comments, users, k + 1).value);
  }

  /** The collected comments are in strictly increasing id order. */
  lemma {:induction false} IdeaCommentsIncreasing(comments: seq<CommentRow>, users: seq<string>, ideaId: int, n: nat)
    requires n <= |comments|
    ensures Increasing(IdeaComments(comments, users, ideaId, n))
  {
    if n > 0 {
      var prev := IdeaComments(comments, users, ideaId, n - 1);
      var tail := CommentOn(comments, users, ideaId, n);
      IdeaCommentsIncreasing(comments, users, ideaId, n - 1);
      IdeaCommentsSound(comments, users, ideaId, n - 1);
      var r := prev + tail;
      assert IdeaComments(comments, users, ideaId, n) == r;
      assert Increasing(prev);
      forall a, b | 0 <= a < b < |r|
        ensures r[a].id < r[b].id
      {
        if b < |prev| {
          assert r[a] == prev[a] && r[b] == prev[b];
          assert prev[a].id < prev[b].id;
        } else {
          assert |tail| <= 1 && a < |prev|;
          assert r[b] == tail[b - |prev|] && r[a] == prev[a];
          assert r[a] in prev && r[b] in tail;
          assert r[a].id <= n - 1;
          assert r[b].id == n;
        }
      }
    }
  }

  predicate Increasing(s: seq<CommentView>)
  {
    forall a, b :: 0 <= a < b < |s| ==> s[a].id < s[b].id
  }

  /** In a list in strictly increasing id order every element occurs once. */
  lemma {:induction false} OnceWhenIncreasing(s: seq<CommentView>, x: CommentView)
    requires Increasing(s)
    requires x in s
    ensures multiset(s)[x] == 1
  {
    var last := |s| - 1;
    var init := s[..last];
    assert s == init + [s[last]];
    CountAppended(init, [s[last]], x);
    if s[last] == x {
      forall m | 0 <= m < |init|
        ensures init[m] != x
      {
        assert init[m] == s[m];
      }
    } else {
      assert forall a :: 0 <= a < |init| ==> init[a] == s[a];
      OnceWhenIncreasing(init, x);
    }
  }

  /** The multiplicity of `x` in `a + b` is the sum of its multiplicities. */
  lemma CountAppended<T>(a: seq<T>, b: seq<T>, x: T)
    ensures multiset(a + b)[x] == multiset(a)[x] + multiset(b)[x]
  {
    assert multiset(a + b) == multiset(a) + multiset(b);
  }

  /**
   * The comment listing holds exactly the idea's comments, each once and as `getCommentById`
   * gives it, in ascending creation time.
   */
  lemma CommentsListing(db: Database, ideaId: int)
    requires db.Valid()
    ensures var r := CommentsByIdeaId(db, ideaId);
      && Ordering.SortedBy(r, CommentBefore)
      && (forall c :: c in r ==> c.ideaId == ideaId && CommentById(db, c.id) == Some(c))
      && forall k :: 0 <= k < |db.comments| && db.comments[k].ideaId == ideaId ==>
           CommentById(db, k + 1).Some? && CommentById(db, k + 1).value in r
           && multiset(r)[CommentById(db, k + 1).value] == 1
  {
    var all := IdeaComments(db.comments, db.users, ideaId, |db.comments|);
    IdeaCommentsSound(db.comments, db.users, ideaId, |db.comments|);
    var r := CommentsByIdeaId(db, ideaId);
    assert multiset(r) == multiset(all);
    forall c | c in r ensures c.ideaId == ideaId && CommentById(db, c.id) == Some(c) {
      assert c in multiset(all);
    }
    forall k | 0 <= k < |db.comments| && db.comments[k].ideaId == ideaId
      ensures CommentById(db, k + 1).Some? && CommentById(db, k + 1).value in r
      ensures multiset(r)[CommentById(db, k + 1).value] == 1
    {
      IdeaCommentsOnce(db.comments, db.users, ideaId, |db.comments|, k);
      assert CommentById(db, k + 1).value in multiset(all);
    }
  }
}
