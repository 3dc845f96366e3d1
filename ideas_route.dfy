/**
 * `/api/ideas`: `GET` lists every idea, annotated with the votes of the viewer named by the
 * `x-user-id` header when there is one; `POST` checks the body, resolves the author by
 * username and creates the idea.
 */
module IdeasRoute {
  import opened Wrappers
  import opened Js
  import opened Db
  import opened Queries
  import opened Http
  import Ordering

  /**
   * `userId ? parseInt(userId) : undefined` on the header value: no viewer without a header or
   * with an empty one, otherwise what `parseInt` reads (`None` is `NaN`).
   */
  function Viewer(header: Option<string>): (v: Option<int>)
    ensures !PresentText(header) ==> v == None
  {
    if PresentText(header) then ParseInt(header.value) else None
  }

  /** The `GET` handler: the idea listing for the viewer the header names. */
  function Get(db: Database, header: Option<string>): (r: Response<seq<IdeaView>>)
    reads db
    ensures r.Json? && r.status == StatusOk
    ensures Ordering.SortedBy(r.payload, IdeaBefore)
    ensures forall v :: v in r.payload ==> IdeaById(db, v.id, Viewer(header)) == Some(v)
  {
    Json(StatusOk, AllIdeas(db, Viewer(header)))
  }

  /** Without the header every idea is listed once, by score and then newest first, unannotated. */
  lemma GetAnonymous(db: Database, header: Option<string>)
    requires db.Valid() && !PresentText(header)
    ensures Get(db, header).Json? && Get(db, header).status == StatusOk
    ensures Ordering.SortedBy(Get(db, header).payload, IdeaBefore)
    ensures |Get(db, header).payload| == |db.ideas|
    ensures forall v :: v in Get(db, header).payload ==> IdeaById(db, v.id, None) == Some(v) && v.userVote == NotAsked
    ensures forall id :: IsRowId(id, |db.ideas|) ==> multiset(Get(db, header).payload)[IdeaById(db, id, None).value] == 1
  {
    AllIdeasListing(db, None);
  }

  /**
   * With `x-user-id: n` for a user id n, every listed idea carries n's own vote on it (`NoVote`
   * when n has none), as `getIdeaById(id, n)` gives it.
   */
  lemma GetAsViewer(db: Database, n: nat)
    requires db.Valid() && n > 0
    ensures Ordering.SortedBy(Get(db, Some(NatToString(n))).payload, IdeaBefore)
    ensures |Get(db, Some(NatToString(n))).payload| == |db.ideas|
    ensures forall v :: v in Get(db, Some(NatToString(n))).payload ==>
      && IdeaById(db, v.id, Some(n)) == Some(v)
      && v.userVote == match VoteOf(db.votes, v.id, n) case None => NoVote case Some(x) => Voted(x)
    ensures forall id :: IsRowId(id, |db.ideas|) ==>
      multiset(Get(db, Some(NatToString(n))).payload)[IdeaById(db, id, Some(n)).value] == 1
  {
    NatToStringRoundTrip(n);
    assert Viewer(Some(NatToString(n))) == Some(n);
    AllIdeasListing(db, Some(n));
  }

  /** A header that does not start with a number (so `parseInt` gives `NaN`) lists as anonymous. */
  lemma GetUnreadableHeader(db: Database, h: string)
    requires TrimStart(h) != []
    requires var c := TrimStart(h)[0]; c != '-' && c != '+' && !('0' <= c <= '9')
    ensures Get(db, Some(h)) == Get(db, None)
  {
    ParseIntNoDigits(h);
  }

  datatype IdeaBody = IdeaBody(title: Value, description: Value, username: Value)

  const MissingFields := "Title, description, and username are required"

  datatype Decision = Reject(message: string) | Accept(title: string, description: string, username: string) | MistypedBody

  function Decide(b: IdeaBody): (d: Decision)
    ensures d.Reject? <==> !Truthy(b.title) || !Truthy(b.description) || !Truthy(b.username)
    ensures d.Reject? ==> d.message == MissingFields
    ensures d.Accept? ==>
      && b == IdeaBody(Str(d.title), Str(d.description), Str(d.username))
      && d.title != "" && d.description != "" && d.username != ""
    ensures d.MistypedBody? <==> !d.Reject? && !(IsText(b.title) && IsText(b.description) && IsText(b.username))
  {
    if !Truthy(b.title) || !Truthy(b.description) || !Truthy(b.username) then Reject(MissingFields)
    else if !(IsText(b.title) && IsText(b.description) && IsText(b.username)) then MistypedBody
    else Accept(b.title.s, b.description.s, b.username.s)
  }

  /**
   * The `POST` handler. A refused body gets a 400 and the store is not touched; otherwise the
   * author is get-or-created and the idea is appended with exactly the title and description
   * sent, and answered with a 201 and an empty aggregate.
   */
  method Post(db: Database, body: IdeaBody, now: int) returns (r: Response<Option<IdeaView>>)
    requires db.Valid()
    modifies db
    ensures db.Valid()
    ensures Decide(body).Reject? ==> r == Error(StatusBadRequest, MissingFields) && unchanged(db)
    ensures Decide(body).MistypedBody? ==> r == UnsupportedBody && unchanged(db)
    ensures Decide(body).Accept? ==>
      var d := Decide(body);
      var user := GetUserByUsername(db, d.username);
      && user.Some?
      && (db.users == old(db.users) || db.users == old(db.users) + [d.username])
      && db.ideas == old(db.ideas) + [IdeaRow(d.title, d.description, user.value.id, now)]
      && r == Json(StatusCreated, IdeaById(db, |db.ideas|, None))
      && r.payload.Some? && r.payload.value.username == d.username
      && r.payload.value.upvotes == 0 && r.payload.value.downvotes == 0 && r.payload.value.score == 0
    ensures db.votes == old(db.votes) && db.comments == old(db.comments)
    ensures db.participants == old(db.participants) && db.teams == old(db.teams)
    ensures db.nextTeamId == old(db.nextTeamId) && db.members == old(db.members)
  {
    var d := Decide(body);
    if d.Reject? {
      r := Error(StatusBadRequest, d.message);
      return;
    }
    if d.MistypedBody? {
      r := UnsupportedBody;
      return;
    }
    var user := GetOrCreateUser(db, d.username);
    var created := CreateIdea(db, d.title, d.description, user.id, now);
    r := Json(StatusCreated, created.value);
  }
}
