/**
 * `/api/comments`: `GET ?ideaId=` lists an idea's comments, oldest first; `POST` checks the
 * body, resolves the author by username and adds the comment.
 */
module CommentsRoute {
  import opened Wrappers
  import opened Js
  import opened Db
  import opened Queries
  import opened Http
  import Ordering

  const MissingIdea := "ideaId is required"
  const MissingFields := "ideaId, username, and content are required"
  const CommentFailed := "Failed to create comment"

  /**
   * The `GET` handler on the `ideaId` query parameter. An absent or empty one is a 400;
   * otherwise it is read with `parseInt`, and a `NaN` id matches no comment.
   */
  function Get(db: Database, ideaId: Option<string>): (r: Response<seq<CommentView>>)
    reads db
    ensures !PresentText(ideaId) <==> r == Error(StatusBadRequest, MissingIdea)
    ensures PresentText(ideaId) && ParseInt(ideaId.value).None? ==> r == Json(StatusOk, [])
  {
    if !PresentText(ideaId) then Error(StatusBadRequest, MissingIdea)
    else
      match ParseInt(ideaId.value)
      case None => Json(StatusOk, [])
      case Some(i) => Json(StatusOk, CommentsByIdeaId(db, i))
  }

  /**
   * `GET ?ideaId=n` answers exactly the comments on idea n, each once and as `getCommentById`
   * gives it, in ascending creation time.
   */
  lemma GetListing(db: Database, n: nat)
    requires db.Valid()
    ensures var r := Get(db, Some(NatToString(n)));
      && r.Json? && r.status == StatusOk
      && Ordering.SortedBy(r.payload, CommentBefore)
      && (forall c :: c in r.payload ==> c.ideaId == n && CommentById(db, c.id) == Some(c))
      && forall k :: 0 <= k < |db.comments| && db.comments[k].ideaId == n ==>
           CommentById(db, k + 1).Some? && CommentById(db, k + 1).value in r.payload
           && multiset(r.payload)[CommentById(db, k + 1).value] == 1
  {
    NatToStringRoundTrip(n);
    assert Get(db, Some(NatToString(n))) == Json(StatusOk, CommentsByIdeaId(db, n));
    CommentsListing(db, n);
  }

  datatype CommentBody = CommentBody(ideaId: Value, username: Value, content: Value)

  datatype Decision = Reject(message: string) | Accept(ideaId: int, username: string, content: string) | MistypedBody

  function Decide(b: CommentBody): (d: Decision)
    ensures d.Reject? <==> !Truthy(b.ideaId) || !Truthy(b.username) || !Truthy(b.content)
    ensures d.Reject? ==> d.message == MissingFields
    ensures d.Accept? ==>
      && b == CommentBody(Num(d.ideaId), Str(d.username), Str(d.content))
      && d.ideaId != 0 && d.username != "" && d.content != ""
    ensures d.MistypedBody? <==> !d.Reject? && !(IsId(b.ideaId) && IsText(b.username) && IsText(b.content))
  {
    if !Truthy(b.ideaId) || !Truthy(b.username) || !Truthy(b.content) then Reject(MissingFields)
    else if !(IsId(b.ideaId) && IsText(b.username) && IsText(b.content)) then MistypedBody
    else Accept(b.ideaId.n, b.username.s, b.content.s)
  }

  /**
   * The `POST` handler. A refused body gets a 400 and the store is not touched; otherwise the
   * author is get-or-created and one comment by that user is appended and answered with a 201.
   * A comment on an idea that does not exist breaks a foreign key and is answered with a 500
   * (the author may have been created by then).
   */
  method Post(db: Database, body: CommentBody, now: int) returns (r: Response<Option<CommentView>>)
    requires db.Valid()
    modifies db
    ensures db.Valid()
    ensures Decide(body).Reject? ==> r == Error(StatusBadRequest, MissingFields) && unchanged(db)
    ensures Decide(body).MistypedBody? ==> r == UnsupportedBody && unchanged(db)
    ensures Decide(body).Accept? ==>
      var d := Decide(body);
      var user := GetUserByUsername(db, d.username);
      && user.Some?
      && (db.users == old(db.users) || db.users == old(db.users) + [d.username])
      && (IsRowId(d.ideaId, |db.ideas|) ==>
            && db.comments == old(db.comments) + [CommentRow(d.ideaId, user.value.id, d.content, now)]
            && r == Json(StatusCreated, CommentById(db, |db.comments|))
            && r.payload == Some(CommentView(|db.comments|, d.ideaId, user.value.id, d.username, d.content, now)))
      && (!IsRowId(d.ideaId, |db.ideas|) ==>
            db.comments == old(db.comments) && r == Error(StatusServerError, CommentFailed))
    ensures db.ideas == old(db.ideas) && db.votes == old(db.votes)
    ensures db.participants == old(db.participants) && db.teams == old(db.teams)
    ensures db.nextTeamId == old(db.nextTeamId) && db.members == old(db.members)
  {
    var d := Decide(body);
    if d.Reject? {
      r := Error(StatusBadRequest, d.message);
      return;
    }
    if d.MistypedBody? {
      r := UnsupportedBody;
      return;
    }
    var user := GetOrCreateUser(db, d.username);
    var created := CreateComment(db, d.ideaId, user.id, d.content, now);
    if created.Success? {
      r := Json(StatusCreated, created.value);
    } else {
      r := Error(StatusServerError, CommentFailed);
    }
  }
}
