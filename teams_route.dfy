/**
 * `POST /api/teams`: checks the body, resolves the creator by username, and calls
 * `createTeam` with a falsy `ideaId` turned into `null`.
 */
module TeamsRoute {
  import opened Wrappers
  import opened Js
  import opened Db
  import opened Queries
  import opened Http

  datatype TeamBody = TeamBody(name: Value, hackathonId: Value, ideaId: Value, username: Value)

  const MissingFields := "Name, hackathonId, and username are required"

  /** The arguments of the `createTeam` call the route makes. */
  datatype TeamCall = TeamCall(name: Value, hackathonId: Value, ideaId: Value, createdBy: int)

  datatype Decision = Reject(message: string) | Accept(username: string) | MistypedBody

  function Decide(b: TeamBody): (d: Decision)
    ensures d.Reject? <==> !Truthy(b.name) || !Truthy(b.hackathonId) || !Truthy(b.username)
    ensures d.Reject? ==> d.message == MissingFields
    ensures d.Accept? ==> b.username == Str(d.username) && d.username != ""
    ensures d.MistypedBody? <==> !d.Reject? && !IsText(b.username)
  {
    if !Truthy(b.name) || !Truthy(b.hackathonId) || !Truthy(b.username) then Reject(MissingFields)
    else if !IsText(b.username) then MistypedBody
    else Accept(b.username.s)
  }

  /**
   * `ideaId || null`: a team is created without an idea when the field is absent, `null`,
   * `0`, `false` or empty, and with the given value otherwise.
   */
  function IdeaArgument(ideaId: Value): (v: Value)
    ensures v == Null || v == ideaId
    ensures v == Null <==> !Truthy(ideaId)
  {
    Or(ideaId, Null)
  }

  /**
   * The handler. A refused body gets a 400 and the store is not touched; otherwise the creator
   * is resolved with get-or-create and becomes `created_by`. `createTeam` is not part of this
   * model, so the 201 answer carries the call's arguments.
   */
  method Post(db: Database, body: TeamBody) returns (r: Response<TeamCall>)
    requires db.Valid()
    modifies db
    ensures db.Valid()
    ensures Decide(body).Reject? ==> r == Error(StatusBadRequest, MissingFields) && unchanged(db)
    ensures Decide(body).MistypedBody? ==> r == UnsupportedBody && unchanged(db)
    ensures Decide(body).Accept? ==>
      var user := GetUserByUsername(db, Decide(body).username);
      && user.Some?
      && (db.users == old(db.users) || db.users == old(db.users) + [Decide(body).username])
      && r == Json(StatusCreated, TeamCall(body.name, body.hackathonId, IdeaArgument(body.ideaId), user.value.id))
    ensures db.ideas == old(db.ideas) && db.votes == old(db.votes) && db.comments == old(db.comments)
    ensures db.participants == old(db.participants) && db.teams == old(db.teams)
    ensures db.nextTeamId == old(db.nextTeamId) && db.members == old(db.members)
  {
    var d := Decide(body);
    if d.Reject? {
      r := Error(StatusBadRequest, d.message);
      return;
    }
    if d.MistypedBody? {
      r := UnsupportedBody;
      return;
    }
    var user := GetOrCreateUser(db, d.username);
    r := Json(StatusCreated, TeamCall(body.name, body.hackathonId, IdeaArgument(body.ideaId), user.id));
  }
}
