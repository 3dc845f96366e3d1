/**
 * `POST /api/hackathons`: checks the body, resolves the creator by username, and calls
 * `createHackathon` with falsy optional fields turned into `null` and the mode defaulted
 * to "select".
 */
module HackathonsRoute {
  import opened Wrappers
  import opened Js
  import opened Db
  import opened Queries
  import opened Http

  datatype HackathonBody = HackathonBody(
    name: Value, description: Value, startDate: Value, endDate: Value, mode: Value, username: Value)

  const MissingFields := "Name and username are required"
  const BadMode := "Mode must be \"select\", \"random\", or \"team-random\""

  /** The team-forming modes a hackathon may have, compared with `!==`. */
  predicate IsMode(v: Value)
  {
    v == Str("select") || v == Str("random") || v == Str("team-random")
  }

  /** The arguments of the `createHackathon` call the route makes. */
  datatype HackathonCall = HackathonCall(
    name: Value, description: Value, startDate: Value, endDate: Value, mode: string, createdBy: int)

  datatype Decision = Reject(message: string) | Accept(username: string) | MistypedBody

  /**
   * The required fields first, then the mode: an absent or otherwise falsy mode passes, a
   * truthy one must be one of the three names.
   */
  function Decide(b: HackathonBody): (d: Decision)
    ensures d.Reject? <==> !Truthy(b.name) || !Truthy(b.username) || (Truthy(b.mode) && !IsMode(b.mode))
    ensures d.Reject? ==> (d.message == MissingFields <==> !Truthy(b.name) || !Truthy(b.username))
    ensures d.Reject? ==> d.message == MissingFields || d.message == BadMode
    ensures d.Accept? ==> b.username == Str(d.username) && d.username != ""
    ensures !d.Reject? ==> Truthy(b.name) && (!Truthy(b.mode) || IsMode(b.mode))
    ensures d.MistypedBody? <==> !d.Reject? && !IsText(b.username)
  {
    if !Truthy(b.name) || !Truthy(b.username) then Reject(MissingFields)
    else if Truthy(b.mode) && !IsMode(b.mode) then Reject(BadMode)
    else if !IsText(b.username) then MistypedBody
    else Accept(b.username.s)
  }

  /**
   * `description || null`, `startDate || null`, `endDate || null` and `mode || 'select'`:
   * the stored mode is always one of the three names, "select" when none was given.
   */
  function Call(b: HackathonBody, createdBy: int): (c: HackathonCall)
    requires !Truthy(b.mode) || IsMode(b.mode)
    ensures IsMode(Str(c.mode))
    ensures !Truthy(b.mode) ==> c.mode == "select"
    ensures Truthy(b.mode) ==> Str(c.mode) == b.mode
    ensures c.name == b.name && c.createdBy == createdBy
    ensures Truthy(b.description) ==> c.description == b.description
    ensures !Truthy(b.description) ==> c.description == Null
    ensures Truthy(b.startDate) ==> c.startDate == b.startDate
    ensures !Truthy(b.startDate) ==> c.startDate == Null
    ensures Truthy(b.endDate) ==> c.endDate == b.endDate
    ensures !Truthy(b.endDate) ==> c.endDate == Null
  {
    HackathonCall(b.name, Or(b.description, Null), Or(b.startDate, Null), Or(b.endDate, Null),
                  Or(b.mode, Str("select")).s, createdBy)
  }

  /**
   * The handler. A refused body gets a 400 and the store is not touched; otherwise the creator
   * is resolved with get-or-create after the checks, and its id is the `created_by` of the call.
   * `createHackathon` is not part of this model, so the 201 answer carries the call's arguments.
   */
  method Post(db: Database, body: HackathonBody) returns (r: Response<HackathonCall>)
    requires db.Valid()
    modifies db
    ensures db.Valid()
    ensures Decide(body).Reject? ==> r == Error(StatusBadRequest, Decide(body).message) && unchanged(db)
    ensures Decide(body).MistypedBody? ==> r == UnsupportedBody && unchanged(db)
    ensures Decide(body).Accept? ==>
      var user := GetUserByUsername(db, Decide(body).username);
      && user.Some?
      && (db.users == old(db.users) || db.users == old(db.users) + [Decide(body).username])
      && r == Json(StatusCreated, Call(body, user.value.id))
    ensures db.ideas == old(db.ideas) && db.votes == old(db.votes) && db.comments == old(db.comments)
    ensures db.participants == old(db.participants) && db.teams == old(db.teams)
    ensures db.nextTeamId == old(db.nextTeamId) && db.members == old(db.members)
  {
    var d := Decide(body);
    if d.Reject? {
      r := Error(StatusBadRequest, d.message);
      return;
    }
    if d.MistypedBody? {
      r := UnsupportedBody;
      return;
    }
    var user := GetOrCreateUser(db, d.username);
    r := Json(StatusCreated, Call(body, user.id));
  }
}
