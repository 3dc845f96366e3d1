# hacka-app store, team randomization and API rules in Dafny

This project models the core of hacka-app, a hackathon idea board. Users are identified by a
username alone. They post ideas, vote ideas up or down, comment on them, join hackathons, and
have hackathon teams formed at random. The model covers three connected parts.

- **The store** (`lib/queries.ts`, `lib/participant-queries.ts`). One `Db.Database` object
  holds every table and keeps the schema constraints of `lib/db.ts` as its invariant `Valid()`:
  - the vote value is -1 or 1, and the (idea, user) key is unique;
  - usernames are unique, and so are (team, user) memberships;
  - the foreign keys of ideas, votes, comments and memberships, and `teams.created_by`, point
    at existing rows (`teams.idea_id` and `teams.hackathon_id` are not checked; see below).

  The statements of the two query files are methods that change the tables. Their results are
  functions of the new state. A statement that would break a constraint returns a `StoreError`
  and changes nothing.
- **Balanced team randomization** (`randomizeTeams`). It takes the participants in the order
  `ORDER BY RANDOM()` produced, given as an input permutation of the participant pool. It
  deletes the hackathon's teams (their members go by cascade), computes
  `numTeams = ceil(P / teamSize)`, and creates "Team 1" .. "Team N". The participants are dealt
  round-robin, with two nested `while` loops as in the source. What is proved about the result:
  - it partitions the participants;
  - the team sizes are balanced;
  - the teams and members of other hackathons are untouched.
- **The request rules of the API routes** and the vote buttons.
  - Each route's checks on the body are a total function with JavaScript truthiness (`0`,
    `""`, `null`, `undefined` and `false` count as missing).
  - The success paths run the store methods.
  - The vote buttons' toggle rule is composed with the vote route. The model proves that a
    click leaves exactly the toggled vote stored, provided the buttons show the vote the store
    holds for the viewer. The pages do not meet that provision: they fetch the ideas without
    the `x-user-id` header, so `userVote` is absent and a click always sends the button's value
    (see "## Findings").

The store is the one `lib/db.ts` declares: every `NOT NULL`, `UNIQUE`, `CHECK` and foreign-key
constraint listed above is enforced, and a statement that breaks one changes nothing. Ids are
handed out without gaps.
- Users, ideas and comments are sequences where row `k-1` has id `k`. Nothing in the model
  deletes them, and a failed insert uses up no id.
- Teams are a map with a counter, since randomization deletes them.

Timestamps are integer parameters. An `ORDER BY` is an insertion sort under the query's sort
key.

## Model

| member | source | states |
|---|---|---|
| Db.Database.constructor | lib/db.ts:9-109 | an empty store satisfies every declared constraint (unique usernames, vote CHECK, unique vote key, foreign keys, unique memberships) |
| Js.TrimStart | app/api/ideas/route.ts:7 | the result is a suffix of the input; every dropped character is white space, and the first kept one, if any, is not |
| Js.ParseInt | app/api/ideas/route.ts:7 | a blank string is `NaN`; a number parsed from a string whose first non-blank character is `-` is at most 0, and from any other string at least 0; a string whose first non-blank character is 1-9 always yields a number |
| Js.DigitRun | app/api/ideas/route.ts:7 | the digit run is the longest prefix of digits of the radix: all before it are digits, the next character is not |
| Js.NatToString | lib/participant-queries.ts:54 | `String(n)` is a non-empty string of decimal digits without a leading zero |
| Js.NatToStringRoundTrip | app/api/ideas/route.ts:7 | `parseInt(String(n)) == n` for every non-negative integer |
| Js.NegativeRoundTrip | app/api/comments/route.ts:13 | `parseInt("-" + String(n)) == -n` |
| Js.ParseIntStopsAtNonDigit | app/api/comments/route.ts:13 | characters after the digits are ignored: `parseInt(String(n) + rest) == n` when `rest` starts with no digit and no `x` |
| Js.ParseIntNoDigits | app/api/ideas/route.ts:7 | a string whose first non-blank character is no sign and no digit parses to `NaN` |
| Js.NatToStringInjective | lib/participant-queries.ts:54 | distinct numbers print as distinct strings |
| Ordering.Insert | lib/queries.ts:98 | inserting adds exactly one occurrence of the element to the multiset |
| Ordering.InsertSorted | lib/queries.ts:98 | inserting into a sorted list keeps it sorted under a total preorder |
| Ordering.Sort | lib/queries.ts:127 | the result is a permutation of the input (same multiset and length) and is sorted by the key |
| Queries.FindUser | lib/queries.ts:44 | the reported row holds the name, and no row is reported exactly when the name is absent |
| Queries.GetUserByUsername | lib/queries.ts:43-46 | a found user has that exact name and a valid id whose row holds it; none is found exactly when the name is not in the table |
| Queries.GetUserById | lib/queries.ts:38-41 | a user is found exactly for ids 1..count, carrying the name of that row |
| Queries.CreateUser | lib/queries.ts:32-36 | a taken name fails with a unique violation and changes nothing; otherwise exactly one row is appended and the new user has the last id |
| Queries.GetOrCreateUser | lib/queries.ts:48-54 | an existing name returns its user and changes nothing; a new name appends exactly one row; either way `getUserByUsername` then returns this user, and only the users table may change |
| Queries.FindUserAt | lib/db.ts:12 | with unique usernames, looking up the name of row k finds row k |
| Queries.GetOrCreateUserTwice | lib/queries.ts:48-54 | two calls with one name yield the same user, add at most one row, and leave the name exactly once in the table |
| Queries.UniqueCount | lib/db.ts:12 | in a table of unique usernames each name occurs exactly once |
| Queries.FindVote | lib/queries.ts:137 | the position found holds the (idea, user) key, and none is found exactly when no row has the key |
| Queries.VoteOf | lib/queries.ts:75 | a reported vote is the value of a row with the key; none is reported exactly when no row has the key |
| Queries.VoteOfRow | lib/db.ts:50 | under the unique key, every row's value is the vote reported for its key |
| Queries.Removed | lib/queries.ts:144-146 | the rows left are exactly the rows without the deleted key |
| Queries.Upserted | lib/queries.ts:134-139 | the new row is in the table, every row of another key stays, no other row appears, and the table grows by one exactly when the key had no row |
| Queries.RemovedAbsent | lib/queries.ts:144-146 | deleting a key that has no vote changes nothing |
| Queries.RemovedUnique | lib/db.ts:50 | deleting keeps the (idea, user) key unique |
| Queries.UpsertedLookup | lib/queries.ts:133-140 | after the upsert the key holds the value sent, every other key keeps its vote, and the key stays unique |
| Queries.UpsertedOthers | lib/queries.ts:133-140 | the upsert leaves the vote of every other key as it was |
| Queries.UpsertedUnique | lib/queries.ts:137-138 | `ON CONFLICT DO UPDATE` keeps the (idea, user) key unique |
| Queries.RemovedLookup | lib/queries.ts:144-146 | after the delete the key has no vote, every other key keeps its vote, and the key stays unique |
| Queries.ReplayLastWriteWins | lib/queries.ts:133-148 | after any sequence of upserts and deletes each key holds the value of its last request (none if that was a delete, the old vote if there was no request) |
| Queries.LastWriteFirst | lib/queries.ts:133-148 | the last request on a key is found equally by reading the requests from the front |
| Queries.ScoreIsUpvotesMinusDownvotes | lib/queries.ts:68-70 | with every stored vote in {-1, 1} the score equals upvotes minus downvotes |
| Queries.NoVotesAggregate | lib/queries.ts:68-70 | an idea without vote rows has zero upvotes, downvotes and score |
| Queries.ThreeUpOneDown | lib/queries.ts:68-70 | three +1 and one -1 on an idea give 3 upvotes, 1 downvote and score 2 |
| Queries.IdeaById | lib/queries.ts:63-82 | a row is returned exactly when the idea exists and its author joins; it carries the idea's id, title, description and time, the author found by id, and `userVote` absent exactly without a truthy viewer id, null exactly when the viewer has no vote |
| Queries.IdeaAggregate | lib/queries.ts:63-82 | an idea is returned exactly for existing ids; it carries its row and author, the counts of +1 and -1 votes, and score = upvotes - downvotes; `userVote` is absent without a truthy viewer id, and otherwise it is the viewer's stored vote or null when the viewer has none |
| Queries.IdeaBeforeTotal | lib/queries.ts:98 | `score DESC, created_at DESC` is a total preorder |
| Queries.AllIdeas | lib/queries.ts:84-102 | the listing is sorted by score and then creation time, both descending, and each row is the `getIdeaById` row of its id |
| Queries.ViewsSound | lib/queries.ts:93-97 | every joined row is the `getIdeaById` row of its own id |
| Queries.ViewsComplete | lib/queries.ts:93-97 | under the author foreign key every idea is joined, and row k is idea k + 1 |
| Queries.AllIdeasListing | lib/queries.ts:84-102 | the listing is sorted by score and then creation time, both descending; it has one row per idea; each row is what `getIdeaById` gives for its id; each idea occurs exactly once |
| Queries.ViewsOnce | lib/queries.ts:97 | a listing whose row k is idea k + 1 holds every idea exactly once |
| Queries.AllIdeasRows | lib/queries.ts:84-102 | sorting keeps the rows, and each listed row is the `getIdeaById` row of its id |
| Queries.MultiplicityOne | lib/queries.ts:97 | rows with pairwise distinct ids occur once each |
| Queries.CreateIdea | lib/queries.ts:57-61 | a missing author fails with a foreign-key error and changes nothing; otherwise exactly one idea is appended with the given title, description and author, returned with zero counts and no viewer annotation |
| Queries.UpsertedOk | lib/db.ts:43-54 | an upsert of a valid value on an existing idea by an existing user keeps every constraint of `votes` |
| Queries.UpsertVote | lib/queries.ts:133-142 | a value outside {-1, 1} fails the CHECK and a missing idea or user fails a foreign key, both without change; otherwise the votes table is the upsert and the answer is the recomputed aggregate with the voter's new vote |
| Queries.RemoveVote | lib/queries.ts:144-148 | the votes table loses exactly the key's row (no change when there was none), and the answer is the recomputed aggregate with no vote of the user |
| Queries.CreateComment | lib/queries.ts:105-109 | a missing idea or user fails a foreign key and changes nothing; otherwise exactly one comment is appended and returned joined with its author's name |
| Queries.CommentById | lib/queries.ts:111-119 | a comment is returned exactly when the id exists and its author joins; it carries the row's id, idea, content and time and the author found by id |
| Queries.CommentsByIdeaId | lib/queries.ts:121-130 | the listing is in ascending creation time, and each row is on the idea and is the `getCommentById` row of its id |
| Queries.IdeaCommentsSound | lib/queries.ts:121-129 | every listed comment is on the idea and is the joined row of its id |
| Queries.IdeaCommentsComplete | lib/queries.ts:121-129 | every comment row on the idea is joined and listed |
| Queries.IdeaCommentsOnce | lib/queries.ts:121-130 | every comment on the idea whose author exists is collected exactly once |
| Queries.IdeaCommentsIncreasing | lib/queries.ts:121-130 | the collected comments are in strictly increasing id order |
| Queries.CommentsListing | lib/queries.ts:121-130 | the listing is in ascending creation time; its rows are exactly the idea's comments, each once and as `getCommentById` gives it |
| ParticipantQueries.DistinctCount | lib/participant-queries.ts:32-38 | a repetition-free list holds each element at most once |
| ParticipantQueries.PermutationDistinct | lib/participant-queries.ts:37 | a reordering of a repetition-free list is repetition-free |
| ParticipantQueries.DistinctConcat | lib/db.ts:105 | two disjoint repetition-free lists concatenate to a repetition-free list |
| ParticipantQueries.NumTeams | lib/participant-queries.ts:50 | the result is `Math.ceil(P / teamSize)` for either sign: (n - 1) * teamSize < P <= n * teamSize for a positive size, and the reverse for a negative one |
| ParticipantQueries.NumTeamsIsCeiling | lib/participant-queries.ts:50 | for a positive team size the team count is the least n with n * teamSize >= P |
| ParticipantQueries.NegativeTeamSizeCreatesNone | lib/participant-queries.ts:50-53 | a negative team size gives a non-positive `Math.ceil`, so the loop creates no team |
| ParticipantQueries.NewTeams | lib/participant-queries.ts:53-61 | the rounds insert exactly the ids first..first+k-1; id first + i is "Team i+1" of the hackathon, without idea, created by the given user |
| ParticipantQueries.MembersOfAppend | lib/participant-queries.ts:65-70 | the members of a team in two batches of rows are the members in the first batch followed by those in the second |
| ParticipantQueries.MembersOfNone | lib/participant-queries.ts:65-70 | rows none of which belongs to the team give it no members |
| ParticipantQueries.MembersOfColumnRows | lib/participant-queries.ts:65-70 | the rows of one inner loop give its team exactly the visited participants, and give every other team none |
| ParticipantQueries.ColumnRowsShape | lib/participant-queries.ts:65-70 | every row of an inner loop is for its team and for a shuffled participant |
| ParticipantQueries.DealShape | lib/participant-queries.ts:53-70 | every row of the first k rounds is for one of teams first..first+k-1 and for a shuffled participant |
| ParticipantQueries.DealMembers | lib/participant-queries.ts:53-70 | after k rounds, team first + i (i < k) holds exactly column i, and every other team holds no one |
| ParticipantQueries.DealMembersInside | lib/participant-queries.ts:53-70 | after k rounds, team first + i for i < k holds exactly column i |
| ParticipantQueries.DealMembersOutside | lib/participant-queries.ts:53-70 | after k rounds, a team outside first..first+k-1 holds no one |
| ParticipantQueries.ColumnIndex | lib/participant-queries.ts:65 | entry t of column j is the participant at index j + t * n |
| ParticipantQueries.ColumnLength | lib/participant-queries.ts:65 | column j has ceil((P - j) / n) entries |
| ParticipantQueries.RoundRobinPartition | lib/participant-queries.ts:65-70 | for distinct participants, the one at index j is in column i exactly when j mod n == i, and columns hold only participants |
| ParticipantQueries.InColumnByResidue | lib/participant-queries.ts:65 | the participant at index j is in column j mod n |
| ParticipantQueries.InColumnAt | lib/participant-queries.ts:65 | the participant at index i + t * n is in column i |
| ParticipantQueries.ResidueOfColumnMember | lib/participant-queries.ts:65 | a distinct participant found in column i has an index congruent to i modulo n |
| ParticipantQueries.ColumnSubset | lib/participant-queries.ts:65 | every column entry is a participant |
| ParticipantQueries.TeamCountBounds | lib/participant-queries.ts:50 | with a positive team size and P > 0 there are between 1 and P teams |
| ParticipantQueries.ColumnSizes | lib/participant-queries.ts:65 | column i has P / n entries, plus one when i < P mod n |
| ParticipantQueries.ColumnCount | lib/participant-queries.ts:65 | the column length written with quotient and remainder |
| ParticipantQueries.ColumnsFit | lib/participant-queries.ts:49-50 | no column is longer than the team size |
| ParticipantQueries.BalancedTeams | lib/participant-queries.ts:49-70 | between 1 and P teams; team i gets P / n participants plus one when i < P mod n; every team is non-empty, none exceeds the team size, and two teams differ by at most one |
| ParticipantQueries.ParticipantRemoved | lib/participant-queries.ts:12-16 | the rows left are exactly those without the pair, and nothing changes when the pair had no row |
| ParticipantQueries.RemovedUnique | lib/participant-queries.ts:12-16 | deleting keeps (hackathon, user) pairs unique |
| ParticipantQueries.PairCountUnique | lib/participant-queries.ts:8 | with unique pairs a pair has one row when joined and none otherwise |
| ParticipantQueries.ParticipantAdded | lib/participant-queries.ts:4-9 | afterwards the pair is joined; the old rows stay in place and at most one row is added; a pair already joined changes nothing; an added row is the pair at the given time |
| ParticipantQueries.AddParticipant | lib/participant-queries.ts:4-9 | adding keeps pairs unique and leaves exactly one row for the pair; an existing pair changes nothing; every other pair is joined exactly when it was |
| ParticipantQueries.AddParticipantTwice | lib/participant-queries.ts:4-9 | adding the same pair again leaves the table of the first addition |
| ParticipantQueries.RemoveParticipant | lib/participant-queries.ts:12-16 | afterwards the pair has no row; nothing changes when it had none; every other pair is joined exactly when it was |
| ParticipantQueries.Joiners | lib/participant-queries.ts:20-24 | the joined rows are exactly the hackathon's rows whose user exists, with that user's name and join time |
| ParticipantQueries.GetHackathonParticipants | lib/participant-queries.ts:19-28 | the result is the username column of the join-time listing, row by row |
| ParticipantQueries.ParticipantsListing | lib/participant-queries.ts:19-28 | the listing is in ascending join time, is a permutation of the hackathon's joined rows, contains every one of them and nothing else |
| ParticipantQueries.Pool | lib/participant-queries.ts:32-38 | the query returns exactly the existing users joined to the hackathon, with no repetition under unique pairs |
| ParticipantQueries.KeptTeams | lib/participant-queries.ts:44-47 | the teams left are exactly those of other hackathons, unchanged |
| ParticipantQueries.KeptMembers | lib/db.ts:106 | the cascade keeps exactly the memberships of teams not deleted; every kept team keeps its members; no repetition is introduced |
| ParticipantQueries.RandomizedTeams | lib/participant-queries.ts:44-61 | afterwards the hackathon owns exactly the new ids; new team i is "Team i+1" without idea, created by the first shuffled participant; other hackathons' teams are unchanged and no other team exists |
| ParticipantQueries.RandomizedMembers | lib/participant-queries.ts:44-70 | new team i holds exactly column i of the shuffled participants; teams of other hackathons keep their members; deleted teams have none |
| ParticipantQueries.EveryParticipantPlacedOnce | lib/participant-queries.ts:53-70 | every shuffled participant is a member of exactly one new team, the one with index j mod numTeams |
| ParticipantQueries.ColumnRowsFrom | lib/participant-queries.ts:65-70 | the rows of an inner loop come from indices at or after its start and repeat nothing |
| ParticipantQueries.DealDistinct | lib/participant-queries.ts:53-70 | the rounds insert no membership twice |
| ParticipantQueries.RandomizedValid | lib/participant-queries.ts:44-70 | randomization keeps every constraint of `teams` and `team_members` |
| ParticipantQueries.RandomizedMembersOk | lib/db.ts:100-108 | the memberships after randomization point at existing teams and users and repeat nothing |
| ParticipantQueries.RandomizedMembersDistinct | lib/db.ts:105 | kept and dealt memberships together repeat nothing |
| ParticipantQueries.RandomizedTeamsOk | lib/db.ts:84-95 | the teams after randomization have counter-issued ids and existing creators |
| ParticipantQueries.NoTeamsLeft | lib/participant-queries.ts:50-53 | as written, a negative team size leaves a hackathon with participants without any team |
| ParticipantQueries.ShuffledPool | lib/participant-queries.ts:37-40 | the shuffled participants repeat no one and are all existing users |
| ParticipantQueries.AddHackathonParticipant | lib/participant-queries.ts:4-9 | the participants table becomes the conflict-free insert, the store stays valid, and no other table changes |
| ParticipantQueries.RemoveHackathonParticipant | lib/participant-queries.ts:12-16 | the participants table becomes the delete of the pair, the store stays valid, and no other table changes |
| ParticipantQueries.DeleteHackathonTeams | lib/participant-queries.ts:44-47 | `teams` loses exactly the hackathon's teams and `team_members` their rows (cascade); nothing else changes |
| ParticipantQueries.InsertTeam | lib/participant-queries.ts:57-62 | the new team gets the next SERIAL id with the given name, hackathon and creator, and no idea |
| ParticipantQueries.InsertMember | lib/participant-queries.ts:66-69 | exactly one membership row is appended |
| ParticipantQueries.AddMembersRoundRobin | lib/participant-queries.ts:65-70 | the inner loop appends exactly the memberships of the participants at start, start + step, ... |
| ParticipantQueries.CreateTeams | lib/participant-queries.ts:53-71 | the outer loop adds exactly the numTeams new teams and the round-robin memberships, advancing the counter by numTeams (none for numTeams <= 0) |
| ParticipantQueries.CreateTeam | lib/participant-queries.ts:54-70 | one outer round adds team i and its column of members |
| ParticipantQueries.RandomizeTeams | lib/participant-queries.ts:30-72 | with no participant nothing changes; otherwise the hackathon's teams and memberships are replaced by ceil(P / teamSize) new teams dealt round-robin; the store stays valid and the other tables are untouched |
| ParticipantQueries.TeamNamesDistinct | lib/participant-queries.ts:54 | the generated team names are pairwise different |
| ParticipantQueries.CheckedRandomizationKeepsTeams | lib/participant-queries.ts:50 | with a team size of at least 1, between 1 and P teams are created and the hackathon owns the first new id |
| ParticipantQueries.RandomizeTeamsChecked | lib/participant-queries.ts:30-72 | behind a team-size guard of at least 1: a refused call changes nothing; an accepted one is `randomizeTeams` and leaves the hackathon with between 1 and P teams |
| VotesRoute.Decide | app/api/votes/route.ts:9-21 | a body is refused exactly when `ideaId` or `username` is falsy or `voteType` is not exactly 1, -1 or 0; the missing-fields message wins; an accepted body carries a non-zero id, a non-empty name and a valid vote type |
| VotesRoute.DispatchedLookup | app/api/votes/route.ts:26-32 | after the dispatch the voter's vote is gone for 0 and is the value sent for ±1; every other vote is unchanged and the key stays unique |
| VotesRoute.Post | app/api/votes/route.ts:9-34 | a refused body is a 400 with no store access; otherwise the user is get-or-created, the votes table is the dispatch, and the answer is the recomputed idea with the voter's vote; a ±1 vote on a missing idea is a 500 with no vote stored |
| VotesRoute.Apply | app/api/votes/route.ts:25-34 | `removeVote` for 0 and `upsertVote` for ±1, with the answer built from its result |
| VoteButtons.Sent | components/VoteButtons.tsx:31 | a click sends 0 exactly when it matches the current vote, and otherwise the button's value |
| VoteButtons.ClickAccepted | components/VoteButtons.tsx:58-70 | a click on either button sends a vote type the votes route accepts |
| VoteButtons.UpWhileDown | components/VoteButtons.tsx:58 | clicking up while voted down sends +1 and leaves +1 stored |
| VoteButtons.ClickStoresToggled | components/VoteButtons.tsx:31 | when the buttons show the vote the store holds for the viewer, the value a click sends, applied by the votes route, leaves exactly the toggled vote stored and every other vote unchanged |
| VoteButtons.Shown | components/VoteButtons.tsx:8 | the `userVote` the buttons compare against is a number only for a stored vote; an absent field and `null` both match no button |
| VoteButtons.UnannotatedClickRepeats | app/page.tsx:24-30 | with the listing fetched without the viewer header, `userVote` is absent, a click sends the button's own value, and a second click on the same button leaves that vote stored instead of clearing it |
| VoteButtons.ClickTwice | components/VoteButtons.tsx:31 | two clicks on one button restore the vote, unless the vote was the other button's |
| HackathonsRoute.Decide | app/api/hackathons/route.ts:19-31 | a body is refused exactly when `name` or `username` is falsy or a truthy `mode` is not select, random or team-random; the missing-fields message wins |
| HackathonsRoute.Call | app/api/hackathons/route.ts:34-41 | falsy description, startDate and endDate become null and truthy ones pass unchanged; the mode is the one sent, or "select" when it is falsy, and is always a valid mode; the creator is the given id |
| HackathonsRoute.Post | app/api/hackathons/route.ts:19-43 | a refused body is a 400 with no store access; otherwise the creator is get-or-created after the checks and its id is the `created_by` of the call answered with 201 |
| TeamsRoute.Decide | app/api/teams/route.ts:9-14 | a body is refused exactly when `name`, `hackathonId` or `username` is falsy |
| TeamsRoute.IdeaArgument | app/api/teams/route.ts:17 | the idea argument is null exactly when `ideaId` is falsy, and `ideaId` itself otherwise |
| TeamsRoute.Post | app/api/teams/route.ts:9-19 | a refused body is a 400 with no store access; otherwise the creator is get-or-created and is the `created_by` of the call answered with 201 |
| IdeasRoute.Viewer | app/api/ideas/route.ts:6-7 | without a header, or with an empty one, there is no viewer |
| IdeasRoute.Get | app/api/ideas/route.ts:4-8 | the answer is a 200 whose listing is sorted by score and then creation time, each row being the `getIdeaById` row for the header's viewer |
| IdeasRoute.GetAnonymous | app/api/ideas/route.ts:6-7 | without the header every idea is listed exactly once, sorted, and without viewer annotation |
| IdeasRoute.GetAsViewer | app/api/ideas/route.ts:6-7 | with `x-user-id: n` every idea is listed exactly once, sorted, and carries n's own vote on it, or null when n has none |
| IdeasRoute.GetUnreadableHeader | app/api/ideas/route.ts:7 | a header that parses to `NaN` lists as if there were no header |
| IdeasRoute.Decide | app/api/ideas/route.ts:20-25 | a body is refused exactly when `title`, `description` or `username` is falsy |
| IdeasRoute.Post | app/api/ideas/route.ts:20-30 | a refused body is a 400 with no store access; otherwise the author is get-or-created and exactly one idea with the sent title and description is appended, answered with 201 and zero counts |
| CommentsRoute.Get | app/api/comments/route.ts:9-14 | an absent or empty `ideaId` is a 400, and an id that parses to `NaN` lists nothing |
| CommentsRoute.GetListing | app/api/comments/route.ts:13 | `?ideaId=n` answers exactly the comments on idea n, each once, in ascending creation time, each as `getCommentById` gives it |
| CommentsRoute.Decide | app/api/comments/route.ts:26-31 | a body is refused exactly when `ideaId`, `username` or `content` is falsy |
| CommentsRoute.Post | app/api/comments/route.ts:26-36 | a refused body is a 400 with no store access; otherwise the author is get-or-created and exactly one comment by that user is appended and answered with 201; a missing idea is a 500 with no comment stored |

## Left out

- Network, HTTP and logging. `NextResponse`, JSON parsing, `console.error` and `async`/`await` are not modelled. A response is a `Http.Response` value. The 500 catch-alls are modelled only where a store constraint fails (`Failed to process vote`, `Failed to create comment`).
- Values of the wrong JSON type. A truthy id that is not a number, or a username, title or content that is not a string, gives the `UnsupportedBody` response. What happens to such a value depends on the store's type coercion, which is not modelled.
- JSON numbers are integers. Fractions, `NaN` bodies and numbers beyond integer precision are not modelled.
- `parseInt` is modelled without a radix argument and on unbounded integers. Loss of precision on long digit strings is not modelled.
- A `NaN` comment id is taken to match no comment, since no id compares equal to `NaN`.
- Tie order. `ORDER BY` leaves rows with equal keys in an unspecified order. The model's insertion sort lists them in reverse table order, and no contract depends on that order.
- The randomness of `ORDER BY RANDOM()`. The shuffled participants are an input that is only required to be a permutation of the pool.
- Transactions and concurrency. `randomizeTeams` is one sequential method; no atomicity is claimed, and concurrent votes are not modelled.
- ParticipantQueries.RandomizeTeams: requires a non-zero team size. With 0, `Math.ceil(P / 0)` is `Infinity`, the outer loop never ends, and the model does not describe a run that does not terminate.
- A non-integer `teamSize` is not modelled.
- The database driver. `lib/queries.ts` calls a synchronous prepared-statement handle (`db.prepare(...).run/get/all` and `lastInsertRowid`, lib/queries.ts:33-35, 58-60, 106-108) imported as the default export of `lib/db.ts`. That file exports only the Postgres `sql` tag and `initDatabase`, so the two do not fit together as written. The model assumes a store that enforces every constraint of the `lib/db.ts` DDL, foreign keys included; this is what makes the 500 answers for a vote or comment on a missing idea possible. It also assumes ids without gaps. A Postgres `SERIAL` column uses up a sequence value on a failed insert, so after a failed comment the next comment's id would be one more than `Queries.CreateComment` and `CommentsRoute.Post` state.
- The default `teamSize = 4` of `randomizeTeams` (lib/participant-queries.ts:30) is not modelled: every team size is an explicit argument. The only caller passes `teamSize || 4`, so the default is never used.
- The foreign keys `teams.idea_id` (`ON DELETE SET NULL`) and `teams.hackathon_id` are not part of `Valid()`. The hackathons table is not modelled, and randomization creates teams without an idea.
- `createHackathon`, `createTeam`, `getAllHackathons` and the other imported helpers are not part of this model, because their code is not part of the repository's query file. For that reason `HackathonsRoute.Post` and `TeamsRoute.Post` answer with the arguments of the call they make.
- The `hackathon_participants` table definition is not part of this model. Only the unique (hackathon, user) pair its `ON CONFLICT` target implies is kept as an invariant.
- The `hackathons`, `hackathon_ideas` and `team_members.joined_at` columns, and the `ON DELETE` behaviour of ideas and users, are not modelled: nothing in the modelled core deletes an idea or a user.
- Timestamps are integer inputs and are used only for ordering; `CURRENT_TIMESTAMP` is not modelled.
- The GET of the hackathon list, the migration route and the pages and components other than the vote buttons' click rule are not modelled.

## Findings

| source | as written | input that shows it | evidently intended | confidence | as-written member | corrected member |
|---|---|---|---|---|---|---|
| lib/participant-queries.ts:50-53 | `randomizeTeams` never checks `teamSize`; a negative size gives `Math.ceil(P / teamSize) <= 0` after the hackathon's teams were already deleted | `teamSize = -1` with 3 participants: every team of the hackathon is deleted and none is created | a team size below 1 is refused before anything is deleted, as the hackathon page does before calling the route | not executed | ParticipantQueries.NoTeamsLeft | ParticipantQueries.RandomizeTeamsChecked |
| app/page.tsx:26 | the idea list is fetched as `fetch('/api/ideas')` with no `x-user-id` header (so is the idea page, app/ideas/[id]/page.tsx:37), so every idea arrives without `userVote` and `userVote === voteType` at components/VoteButtons.tsx:31 is never true | clicking up twice on an idea the user has not voted on: both clicks send 1, and the +1 vote stays stored | the buttons show the viewer's stored vote, so a click on the highlighted button sends 0 and clears the vote | not executed | VoteButtons.UnannotatedClickRepeats | VoteButtons.ClickStoresToggled |
