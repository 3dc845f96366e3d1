/**
 * The vote buttons of an idea: the up button sends 1, the down button -1, and clicking the
 * button that matches the viewer's current vote sends 0, which clears it.
 */
module VoteButtons {
  import opened Wrappers
  import opened Js
  import opened Db
  import opened Queries
  import VotesRoute

  const UpButton := 1
  const DownButton := -1

  /**
   * The value a click sends, given the viewer's current vote (`None` for `null`/`undefined`,
   * which never equal a number under `===`).
   */
  function Sent(current: Option<int>, button: int): (v: int)
    ensures v == 0 <==> current == Some(button) || button == 0
    ensures v != 0 ==> v == button
  {
    if current == Some(button) then 0 else button
  }

  /** The vote the viewer holds after the click: cleared when it matched, else the button's. */
  function Toggled(current: Option<int>, button: int): Option<int>
  {
    if current == Some(button) then None else Some(button)
  }

  /**
   * Whatever the current vote, either button sends 1, -1 or 0, so the votes route accepts the
   * click whenever the idea id and the username are present.
   */
  lemma ClickAccepted(current: Option<int>, button: int, ideaId: int, username: string)
    requires button == UpButton || button == DownButton
    requires ideaId != 0 && username != ""
    ensures VotesRoute.Decide(VotesRoute.VoteBody(Num(ideaId), Str(username), Num(Sent(current, button))))
            == VotesRoute.Accept(ideaId, username, Sent(current, button))
  {
  }

  /** Clicking up while voted down switches to +1 rather than clearing the vote. */
  lemma UpWhileDown()
    ensures Sent(Some(DownButton), UpButton) == UpButton
    ensures Toggled(Some(DownButton), UpButton) == Some(UpButton)
  {
  }

  /**
   * End to end: when the buttons show the stored vote, the click's value, applied by the votes
   * route, leaves exactly `Toggled` stored for the viewer and every other vote as it was.
   */
  lemma ClickStoresToggled(votes: seq<VoteRow>, ideaId: int, userId: int, button: int, i: int, u: int)
    requires UniqueVoteKeys(votes)
    requires button == UpButton || button == DownButton
    ensures var after := VotesRoute.Dispatched(votes, ideaId, userId, Sent(VoteOf(votes, ideaId, userId), button));
      && VoteOf(after, ideaId, userId) == Toggled(VoteOf(votes, ideaId, userId), button)
      && ((i, u) != (ideaId, userId) ==> VoteOf(after, i, u) == VoteOf(votes, i, u))
  {
    var v := Sent(VoteOf(votes, ideaId, userId), button);
    VotesRoute.DispatchedLookup(votes, ideaId, userId, v, ideaId, userId);
    VotesRoute.DispatchedLookup(votes, ideaId, userId, v, i, u);
  }

  /**
   * The `userVote` prop the buttons receive from a listed idea: `undefined` (no viewer was
   * asked) and `null` (no vote) both compare unequal to either button.
   */
  function Shown(v: ViewerVote): (current: Option<int>)
    ensures current.Some? <==> v.Voted?
    ensures v.Voted? ==> current == Some(v.value)
  {
    match v
    case Voted(x) => Some(x)
    case _ => None
  }

  /**
   * As the pages are written: the listing is fetched without the `x-user-id` header, so every
   * idea arrives with `userVote` absent, and a click on a button always sends that button's
   * value. Clicking the same button twice leaves the vote stored instead of clearing it.
   */
  lemma UnannotatedClickRepeats(votes: seq<VoteRow>, ideaId: int, userId: int, button: int)
    requires UniqueVoteKeys(votes)
    requires button == UpButton || button == DownButton
    ensures Sent(Shown(NotAsked), button) == button
    ensures var once := VotesRoute.Dispatched(votes, ideaId, userId, Sent(Shown(NotAsked), button));
      var twice := VotesRoute.Dispatched(once, ideaId, userId, Sent(Shown(NotAsked), button));
      && VoteOf(once, ideaId, userId) == Some(button)
      && VoteOf(twice, ideaId, userId) == Some(button)
  {
    var once := VotesRoute.Dispatched(votes, ideaId, userId, button);
    VotesRoute.DispatchedLookup(votes, ideaId, userId, button, ideaId, userId);
    VotesRoute.DispatchedLookup(once, ideaId, userId, button, ideaId, userId);
  }

  /** Two clicks on one button restore the vote, unless the first switched from the other one. */
  lemma ClickTwice(current: Option<int>, button: int)
    requires button == UpButton || button == DownButton
    requires current == None || current == Some(UpButton) || current == Some(DownButton)
    ensures Toggled(Toggled(current, button), button) == (if current == Some(-button) then None else current)
  {
  }
}
