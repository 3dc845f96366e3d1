/**
 * Hackathon participants and team randomization: the participant pool of a hackathon
 * (add is idempotent, remove deletes one pair, the listing is in join order), and
 * `randomizeTeams`, which replaces every team of the hackathon with "Team 1" .. "Team N" and
 * deals the shuffled participants to them round-robin.
 */
module ParticipantQueries {
  import opened Wrappers
  import opened Db
  import Js
  import Ordering

  /** No element occurs twice. */
  predicate Distinct<T(==)>(s: seq<T>)
  {
    forall a, b :: 0 <= a < b < |s| ==> s[a] != s[b]
  }

  lemma {:induction false} DistinctCount<T>(s: seq<T>, x: T)
    requires Distinct(s)
    ensures multiset(s)[x] <= 1
  {
    if s != [] {
      assert s == [s[0]] + s[1..];
      assert Distinct(s[1..]) by {
        forall a, b | 0 <= a < b < |s[1..]| ensures s[1..][a] != s[1..][b] {
          assert s[1..][a] == s[a + 1] && s[1..][b] == s[b + 1];
        }
      }
      DistinctCount(s[1..], x);
      if x == s[0] {
        forall k | 0 <= k < |s[1..]| ensures s[1..][k] != x {
          assert s[1..][k] == s[k + 1];
        }
      }
    }
  }

  /** A reordering of a sequence without repetitions has none either. */
  lemma PermutationDistinct<T>(a: seq<T>, b: seq<T>)
    requires multiset(a) == multiset(b) && Distinct(a)
    ensures Distinct(b)
  {
    forall i, j | 0 <= i < j < |b| ensures b[i] != b[j] {
      if b[i] == b[j] {
        var x := b[i];
        assert b == b[..j] + b[j..];
        assert x in b[..j] && x in b[j..];
        assert multiset(b)[x] == multiset(b[..j])[x] + multiset(b[j..])[x];
        DistinctCount(a, x);
      }
    }
  }

  lemma DistinctConcat<T>(a: seq<T>, b: seq<T>)
    requires Distinct(a) && Distinct(b)
    requires forall x :: x in a ==> x !in b
    ensures Distinct(a + b)
  {
    var r := a + b;
    forall i, j | 0 <= i < j < |r| ensures r[i] != r[j] {
      if j < |a| {
        assert r[i] == a[i] && r[j] == a[j];
      } else if i >= |a| {
        assert r[i] == b[i - |a|] && r[j] == b[j - |a|];
      } else {
        assert r[i] == a[i] && r[j] == b[j - |a|];
        assert a[i] in a;
      }
    }
  }

  // ---------------------------------------------------------------------------------------
  // Arithmetic used by the round-robin deal

  /** A multiple of a positive `n` strictly between `-n` and `n` is zero. */
  lemma SmallMultiple(k: int, n: int)
    requires n > 0 && -n < k * n < n
    ensures k == 0
  {
  }

  /** Multiplying by a non-negative number keeps the order. */
  lemma MulMono(x: int, y: int, n: int)
    requires x <= y && n >= 0
    ensures x * n <= y * n
  {
  }

  lemma DivRem(a: int, n: int)
    requires n > 0
    ensures a == (a / n) * n + a % n && 0 <= a % n < n
  {
  }

  lemma MulStep(t: int, n: int)
    ensures (t - 1) * n + n == t * n
  {
  }

  /** Euclidean division is determined by quotient and remainder. */
  lemma DivOf(q: int, n: int, d: int)
    requires n > 0 && 0 <= d < n
    ensures (q * n + d) / n == q && (q * n + d) % n == d
  {
    var a := q * n + d;
    assert a == (a / n) * n + a % n;
    assert (a / n - q) * n == d - a % n;
    SmallMultiple(a / n - q, n);
  }

  lemma DivPlusOne(a: int, n: int)
    requires n > 0 && a >= 0
    ensures (a + n) / n == a / n + 1
  {
    assert a == (a / n) * n + a % n;
    assert a + n == (a / n + 1) * n + a % n;
    DivOf(a / n + 1, n, a % n);
  }

  /** `t * n <= a` bounds `t` by the quotient `a / n`. */
  lemma DivBound(t: int, n: int, a: int)
    requires n > 0 && t * n <= a
    ensures t <= a / n
  {
    assert a == (a / n) * n + a % n;
    if t > a / n {
      MulMono(a / n + 1, t, n);
    }
  }

  /**
   * `Math.ceil(count / teamSize)` for a non-zero integer team size. (A team size of 0 makes it
   * `Infinity`, and the loop of `randomizeTeams` never ends.)
   */
  function NumTeams(count: nat, teamSize: int): (n: int)
    requires teamSize != 0
    ensures teamSize > 0 ==> (n - 1) * teamSize < count <= n * teamSize
    ensures teamSize < 0 ==> n * teamSize <= count < (n - 1) * teamSize
  {
    if teamSize > 0 then
      var a := count + teamSize - 1;
      DivRem(a, teamSize);
      MulStep(a / teamSize, teamSize);
      a / teamSize
    else
      var m := -teamSize;
      DivRem(count, m);
      NegatedProduct(count / m, m);
      -(count / m)
  }

  lemma NegatedProduct(q: int, m: int)
    ensures (-q) * (-m) == q * m && (-q - 1) * (-m) == q * m + m
  {
  }

  /** How many times the loop `for (let i = 0; i < numTeams; i++)` runs. */
  function TeamsCreated(count: nat, teamSize: int): nat
    requires teamSize != 0
  {
    var n := NumTeams(count, teamSize);
    if n > 0 then n else 0
  }

  /** For a positive team size, the number of teams is the least `n` with `n * teamSize >= count`. */
  lemma NumTeamsIsCeiling(count: nat, teamSize: int)
    requires teamSize > 0
    ensures var n := NumTeams(count, teamSize);
            n >= 0 && n * teamSize >= count && (n - 1) * teamSize < count
  {
    var n := NumTeams(count, teamSize);
    DivOf(n, teamSize, (count + teamSize - 1) % teamSize);
    assert count + teamSize - 1 == n * teamSize + (count + teamSize - 1) % teamSize;
  }

  /** A negative team size gives a non-positive `Math.ceil`, so the loop creates no team. */
  lemma NegativeTeamSizeCreatesNone(count: nat, teamSize: int)
    requires teamSize < 0
    ensures NumTeams(count, teamSize) <= 0 && TeamsCreated(count, teamSize) == 0
  {
  }

  // ---------------------------------------------------------------------------------------
  // The round-robin deal, on values

  /** The participants `for (let j = i; j < length; j += numTeams)` visits, in that order. */
  function Column(s: seq<int>, n: nat, j: nat): seq<int>
    requires n > 0
    decreases |s| - j
  {
    if j >= |s| then [] else [s[j]] + Column(s, n, j + n)
  }

  /** The member rows that loop inserts for team `teamId`. */
  function ColumnRows(s: seq<int>, n: nat, j: nat, teamId: int): (r: seq<MemberRow>)
    requires n > 0
    decreases |s| - j
  {
    if j >= |s| then [] else [MemberRow(teamId, s[j])] + ColumnRows(s, n, j + n, teamId)
  }

  /** The member rows the first `k` rounds of the outer loop insert, team `first + i` in round `i`. */
  function Deal(s: seq<int>, n: nat, first: int, k: nat): seq<MemberRow>
    requires k <= n
  {
    if k == 0 then [] else Deal(s, n, first, k - 1) + ColumnRows(s, n, k - 1, first + k - 1)
  }

  /** `'Team ' + (i + 1)`. */
  function TeamName(i: nat): string
  {
    "Team " + Js.NatToString(i + 1)
  }

  /** The team rows the first `k` rounds insert: team `first + i` is "Team i+1", without idea. */
  function NewTeams(first: int, k: nat, hackathonId: int, createdBy: int): (m: map<int, TeamRow>)
    ensures forall t :: t in m <==> first <= t < first + k
    ensures forall i :: 0 <= i < k ==> m[first + i] == TeamRow(TeamName(i), hackathonId, None, createdBy)
  {
    if k == 0 then map[]
    else NewTeams(first, k - 1, hackathonId, createdBy)[first + k - 1 := TeamRow(TeamName(k - 1), hackathonId, None, createdBy)]
  }

  /** The user ids of the member rows of one team, in insertion order. */
  function MembersOf(members: seq<MemberRow>, teamId: int): seq<int>
  {
    if members == [] then []
    else
      (if members[0].teamId == teamId then [members[0].userId] else []) + MembersOf(members[1..], teamId)
  }

  lemma {:induction false} MembersOfAppend(a: seq<MemberRow>, b: seq<MemberRow>, teamId: int)
    ensures MembersOf(a + b, teamId) == MembersOf(a, teamId) + MembersOf(b, teamId)
  {
    if a == [] {
      assert a + b == b;
    } else {
      var h := if a[0].teamId == teamId then [a[0].userId] else [];
      assert (a + b)[0] == a[0];
      assert (a + b)[1..] == a[1..] + b;
      MembersOfAppend(a[1..], b, teamId);
      assert MembersOf(a + b, teamId) == h + (MembersOf(a[1..], teamId) + MembersOf(b, teamId));
      ConcatAssoc(h, MembersOf(a[1..], teamId), MembersOf(b, teamId));
    }
  }

  lemma {:induction false} MembersOfNone(a: seq<MemberRow>, teamId: int)
    requires forall k :: 0 <= k < |a| ==> a[k].teamId != teamId
    ensures MembersOf(a, teamId) == []
  {
    if a != [] {
      MembersOfNone(a[1..], teamId);
    }
  }

  lemma {:induction false} MembersOfColumnRows(s: seq<int>, n: nat, j: nat, teamId: int, t: int)
    requires n > 0
    ensures MembersOf(ColumnRows(s, n, j, teamId), t) == if t == teamId then Column(s, n, j) else []
    decreases |s| - j
  {
    if j < |s| {
      var r := ColumnRows(s, n, j, teamId);
      assert r[1..] == ColumnRows(s, n, j + n, teamId);
      MembersOfColumnRows(s, n, j + n, teamId, t);
    }
  }

  /** Every row of the deal belongs to one of its teams and to a dealt participant. */
  lemma {:induction false} ColumnRowsShape(s: seq<int>, n: nat, j: nat, teamId: int)
    requires n > 0
    ensures forall r :: r in ColumnRows(s, n, j, teamId) ==> r.teamId == teamId && r.userId in s
    decreases |s| - j
  {
    if j < |s| {
      ColumnRowsShape(s, n, j + n, teamId);
    }
  }

  lemma {:induction false} DealShape(s: seq<int>, n: nat, first: int, k: nat)
    requires k <= n
    ensures forall r :: r in Deal(s, n, first, k) ==> first <= r.teamId < first + k && r.userId in s
  {
    if k > 0 {
      var d := Deal(s, n, first, k - 1);
      var c := ColumnRows(s, n, k - 1, first + k - 1);
      DealShape(s, n, first, k - 1);
      ColumnRowsShape(s, n, k - 1, first + k - 1);
      assert forall r :: r in d ==> first <= r.teamId < first + k && r.userId in s;
      assert forall r :: r in c ==> first <= r.teamId < first + k && r.userId in s;
      assert Deal(s, n, first, k) == d + c;
    }
  }

  /** Team `first + i` receives exactly the participants of column `i`, in dealing order. */
  lemma {:induction false} DealMembers(s: seq<int>, n: nat, first: int, k: nat, t: int)
    requires k <= n
    ensures MembersOf(Deal(s, n, first, k), t) == if first <= t < first + k then Column(s, n, t - first) else []
  {
    if first <= t < first + k {
      DealMembersInside(s, n, first, k, t);
    } else {
      DealMembersOutside(s, n, first, k, t);
    }
  }

  lemma {:induction false} DealMembersInside(s: seq<int>, n: nat, first: int, k: nat, t: int)
    requires k <= n && first <= t < first + k
    ensures MembersOf(Deal(s, n, first, k), t) == Column(s, n, t - first)
  {
    DealStepMembers(s, n, first, k, t);
    MembersOfColumnRows(s, n, k - 1, first + k - 1, t);
    if t == first + k - 1 {
      DealMembersOutside(s, n, first, k - 1, t);
      assert [] + Column(s, n, k - 1) == Column(s, n, k - 1);
    } else {
      DealMembersInside(s, n, first, k - 1, t);
      assert Column(s, n, t - first) + [] == Column(s, n, t - first);
    }
  }

  /** One outer round adds the members of its column rows to those dealt before. */
  lemma DealStepMembers(s: seq<int>, n: nat, first: int, k: nat, t: int)
    requires 0 < k <= n
    ensures MembersOf(Deal(s, n, first, k), t)
            == MembersOf(Deal(s, n, first, k - 1), t) + MembersOf(ColumnRows(s, n, k - 1, first + k - 1), t)
  {
    var d := Deal(s, n, first, k - 1);
    var c := ColumnRows(s, n, k - 1, first + k - 1);
    assert Deal(s, n, first, k) == d + c;
    MembersOfAppend(d, c, t);
  }

  lemma {:induction false} DealMembersOutside(s: seq<int>, n: nat, first: int, k: nat, t: int)
    requires k <= n && !(first <= t < first + k)
    ensures MembersOf(Deal(s, n, first, k), t) == []
  {
    if k > 0 {
      DealStepMembers(s, n, first, k, t);
      MembersOfColumnRows(s, n, k - 1, first + k - 1, t);
      DealMembersOutside(s, n, first, k - 1, t);
    }
  }

  /** Column `j` is the participants at the indices `j, j + n, j + 2n, ...`. */
  lemma {:induction false} ColumnIndex(s: seq<int>, n: nat, j: nat)
    requires n > 0
    ensures forall t :: 0 <= t < |Column(s, n, j)| ==> j + t * n < |s| && Column(s, n, j)[t] == s[j + t * n]
    decreases |s| - j
  {
    if j < |s| {
      ColumnIndex(s, n, j + n);
      forall t | 0 < t < |Column(s, n, j)|
        ensures j + t * n < |s| && Column(s, n, j)[t] == s[j + t * n]
      {
        assert Column(s, n, j)[t] == Column(s, n, j + n)[t - 1];
        MulStep(t, n);
      }
    }
  }

  /** The length of column `j`: the number of indices `j + t * n` below `|s|`. */
  lemma {:induction false} ColumnLength(s: seq<int>, n: nat, j: nat)
    requires n > 0
    ensures |Column(s, n, j)| == if j >= |s| then 0 else (|s| - j - 1) / n + 1
    decreases |s| - j
  {
    if j < |s| {
      ColumnLength(s, n, j + n);
      if j + n < |s| {
        DivPlusOne(|s| - j - n - 1, n);
      } else {
        DivOf(0, n, |s| - j - 1);
      }
    }
  }

  /**
   * The deal is a partition: with distinct participants and `0 <= i < n`, the participant at
   * shuffled index `j` is in column `i` exactly when `j mod n == i`, and every column member is
   * a participant.
   */
  lemma RoundRobinPartition(s: seq<int>, n: nat)
    requires n > 0 && Distinct(s)
    ensures forall j, i :: 0 <= j < |s| && 0 <= i < n ==> (s[j] in Column(s, n, i) <==> j % n == i)
    ensures forall i, x :: 0 <= i < n && x in Column(s, n, i) ==> x in s
  {
    forall j, i | 0 <= j < |s| && 0 <= i < n
      ensures s[j] in Column(s, n, i) <==> j % n == i
    {
      if j % n == i {
        InColumnByResidue(s, n, j);
      }
      if s[j] in Column(s, n, i) {
        ResidueOfColumnMember(s, n, i, j);
      }
    }
    forall i, x | 0 <= i < n && x in Column(s, n, i) ensures x in s {
      ColumnSubset(s, n, i, x);
    }
  }

  lemma InColumnByResidue(s: seq<int>, n: nat, j: nat)
    requires n > 0 && j < |s|
    ensures s[j] in Column(s, n, j % n)
  {
    var i, t := j % n, j / n;
    assert j == t * n + i;
    InColumnAt(s, n, i, t);
  }

  lemma InColumnAt(s: seq<int>, n: nat, i: nat, t: nat)
    requires n > 0 && i < n && i + t * n < |s|
    ensures s[i + t * n] in Column(s, n, i)
  {
    ColumnIndex(s, n, i);
    ColumnLength(s, n, i);
    DivBound(t, n, |s| - i - 1);
    assert Column(s, n, i)[t] == s[i + t * n];
  }

  lemma ResidueOfColumnMember(s: seq<int>, n: nat, i: nat, j: nat)
    requires n > 0 && i < n && j < |s| && Distinct(s) && s[j] in Column(s, n, i)
    ensures j % n == i
  {
    ColumnIndex(s, n, i);
    var c := Column(s, n, i);
    var t :| 0 <= t < |c| && c[t] == s[j];
    assert s[i + t * n] == s[j];
    assert j == t * n + i;
    DivOf(t, n, i);
  }

  lemma ColumnSubset(s: seq<int>, n: nat, i: nat, x: int)
    requires n > 0 && x in Column(s, n, i)
    ensures x in s
  {
    ColumnIndex(s, n, i);
    var c := Column(s, n, i);
    var t :| 0 <= t < |c| && c[t] == x;
    assert x == s[i + t * n];
  }

  /** With a positive team size and at least one participant there are between 1 and `count` teams. */
  lemma TeamCountBounds(count: nat, teamSize: int)
    requires teamSize > 0 && count > 0
    ensures 1 <= NumTeams(count, teamSize) <= count
  {
    var n := NumTeams(count, teamSize);
    NumTeamsIsCeiling(count, teamSize);
    if n <= 0 {
      MulMono(n, 0, teamSize);
    }
    MulMono(1, teamSize, n - 1);
  }

  /** Splitting `|s|` round-robin over `n` columns: column `i` has `|s| / n` entries, plus one when `i < |s| % n`. */
  lemma ColumnSizes(s: seq<int>, n: nat)
    requires n > 0
    ensures forall i :: 0 <= i < n ==> |Column(s, n, i)| == |s| / n + (if i < |s| % n then 1 else 0)
  {
    var q, r := |s| / n, |s| % n;
    DivRem(|s|, n);
    forall i | 0 <= i < n ensures |Column(s, n, i)| == q + (if i < r then 1 else 0) {
      ColumnLength(s, n, i);
      ColumnCount(|s|, n, i, q, r);
    }
  }

  /** The length `ColumnLength` gives for column `i` of `p` entries, as quotient and remainder. */
  lemma ColumnCount(p: nat, n: nat, i: nat, q: nat, r: nat)
    requires n > 0 && i < n && r < n && p == q * n + r
    ensures (if i >= p then 0 else (p - i - 1) / n + 1) == q + (if i < r then 1 else 0)
  {
    if i < r {
      DivOf(q, n, r - i - 1);
    } else if i < p {
      assert p - i - 1 == (q - 1) * n + (n + r - i - 1);
      DivOf(q - 1, n, n + r - i - 1);
    } else {
      assert q == 0 by {
        if q >= 1 { MulMono(1, q, n); }
      }
    }
  }

  /** No column is longer than the team size. */
  lemma ColumnsFit(count: nat, teamSize: int)
    requires teamSize > 0 && count > 0
    ensures var n := NumTeams(count, teamSize);
            n > 0 && count / n + (if count % n > 0 then 1 else 0) <= teamSize
  {
    var n := NumTeams(count, teamSize);
    NumTeamsIsCeiling(count, teamSize);
    TeamCountBounds(count, teamSize);
    var q, r := count / n, count % n;
    assert count == q * n + r;
    if q > teamSize {
      MulMono(teamSize + 1, q, n);
    }
  }

  /**
   * Balance: with a positive team size and at least one participant there are between 1 and
   * `count` teams; team `i` gets `count / n` participants plus one when `i < count % n`; so
   * every team is non-empty, no team exceeds the team size, and two teams differ by at most one.
   */
  lemma BalancedTeams(s: seq<int>, teamSize: int)
    requires teamSize > 0 && |s| > 0
    ensures var n := NumTeams(|s|, teamSize);
      && 1 <= n <= |s|
      && (forall i :: 0 <= i < n ==> |Column(s, n, i)| == |s| / n + (if i < |s| % n then 1 else 0))
      && (forall i :: 0 <= i < n ==> 1 <= |Column(s, n, i)| <= teamSize)
      && forall i, i' :: 0 <= i < n && 0 <= i' < n ==> |Column(s, n, i)| <= |Column(s, n, i')| + 1
  {
    var n := NumTeams(|s|, teamSize);
    TeamCountBounds(|s|, teamSize);
    ColumnSizes(s, n);
    ColumnsFit(|s|, teamSize);
    assert |s| / n >= 1 by {
      DivBound(1, n, |s|);
    }
  }

  // ---------------------------------------------------------------------------------------
  // The participant table

  /** The pair `(hackathonId, userId)` has a row in `hackathon_participants`. */
  predicate Joined(ps: seq<ParticipantRow>, hackathonId: int, userId: int)
  {
    exists p :: p in ps && p.hackathonId == hackathonId && p.userId == userId
  }

  /** How many rows carry the pair `(hackathonId, userId)`. */
  function PairCount(ps: seq<ParticipantRow>, hackathonId: int, userId: int): nat
  {
    if ps == [] then 0
    else
      PairCount(ps[..|ps| - 1], hackathonId, userId)
      + if ps[|ps| - 1].hackathonId == hackathonId && ps[|ps| - 1].userId == userId then 1 else 0
  }

  /** `INSERT ... ON CONFLICT (hackathon_id, user_id) DO NOTHING`. */
  function ParticipantAdded(ps: seq<ParticipantRow>, hackathonId: int, userId: int, now: int): (r: seq<ParticipantRow>)
    ensures Joined(r, hackathonId, userId)
    ensures ps <= r && |r| <= |ps| + 1
    ensures Joined(ps, hackathonId, userId) ==> r == ps
    ensures |r| == |ps| + 1 ==> r[|ps|] == ParticipantRow(hackathonId, userId, now)
  {
    if Joined(ps, hackathonId, userId) then ps else ps + [ParticipantRow(hackathonId, userId, now)]
  }

  /** `DELETE ... WHERE hackathon_id = h AND user_id = u`: the other rows, in table order. */
  function ParticipantRemoved(ps: seq<ParticipantRow>, hackathonId: int, userId: int): (r: seq<ParticipantRow>)
    ensures forall p :: p in r <==> p in ps && !(p.hackathonId == hackathonId && p.userId == userId)
    ensures !Joined(ps, hackathonId, userId) ==> r == ps
  {
    if ps == [] then []
    else
      assert ps == [ps[0]] + ps[1..];
      var rest := ParticipantRemoved(ps[1..], hackathonId, userId);
      if ps[0].hackathonId == hackathonId && ps[0].userId == userId then rest else [ps[0]] + rest
  }

  lemma UniqueTail(ps: seq<ParticipantRow>)
    requires ps != [] && UniqueParticipants(ps)
    ensures UniqueParticipants(ps[1..])
  {
    forall a, b | 0 <= a < b < |ps[1..]|
      ensures ps[1..][a].hackathonId != ps[1..][b].hackathonId || ps[1..][a].userId != ps[1..][b].userId
    {
      assert ps[1..][a] == ps[a + 1] && ps[1..][b] == ps[b + 1];
    }
  }

  lemma UniqueCons(x: ParticipantRow, rest: seq<ParticipantRow>)
    requires UniqueParticipants(rest)
    requires forall p :: p in rest ==> p.hackathonId != x.hackathonId || p.userId != x.userId
    ensures UniqueParticipants([x] + rest)
  {
    var r := [x] + rest;
    forall a, b | 0 <= a < b < |r|
      ensures r[a].hackathonId != r[b].hackathonId || r[a].userId != r[b].userId
    {
      assert r[b] == rest[b - 1];
      if a > 0 {
        assert r[a] == rest[a - 1];
      }
    }
  }

  /** Deleting rows keeps the pairs unique. */
  lemma {:induction false} RemovedUnique(ps: seq<ParticipantRow>, hackathonId: int, userId: int)
    requires UniqueParticipants(ps)
    ensures UniqueParticipants(ParticipantRemoved(ps, hackathonId, userId))
  {
    if ps != [] {
      assert ps == [ps[0]] + ps[1..];
      UniqueTail(ps);
      RemovedUnique(ps[1..], hackathonId, userId);
      var rest := ParticipantRemoved(ps[1..], hackathonId, userId);
      if !(ps[0].hackathonId == hackathonId && ps[0].userId == userId) {
        forall k | 0 <= k < |ps[1..]|
          ensures ps[0].hackathonId != ps[1..][k].hackathonId || ps[0].userId != ps[1..][k].userId
        {
          assert ps[1..][k] == ps[k + 1];
        }
        UniqueCons(ps[0], rest);
      }
    }
  }

  lemma {:induction false} PairCountUnique(ps: seq<ParticipantRow>, hackathonId: int, userId: int)
    requires UniqueParticipants(ps)
    ensures PairCount(ps, hackathonId, userId) == if Joined(ps, hackathonId, userId) then 1 else 0
  {
    if ps != [] {
      var init, last := ps[..|ps| - 1], ps[|ps| - 1];
      assert ps == init + [last];
      assert UniqueParticipants(init) by {
        forall a, b | 0 <= a < b < |init|
          ensures init[a].hackathonId != init[b].hackathonId || init[a].userId != init[b].userId
        {
          assert init[a] == ps[a] && init[b] == ps[b];
        }
      }
      PairCountUnique(init, hackathonId, userId);
      if last.hackathonId == hackathonId && last.userId == userId {
        forall k | 0 <= k < |init| ensures init[k].hackathonId != hackathonId || init[k].userId != userId {
          assert init[k] == ps[k];
        }
      } else {
        assert Joined(ps, hackathonId, userId) ==> Joined(init, hackathonId, userId) by {
          if Joined(ps, hackathonId, userId) {
            var p :| p in ps && p.hackathonId == hackathonId && p.userId == userId;
            assert p in init;
          }
        }
      }
    }
  }

  /**
   * Adding a participant keeps the pairs unique and leaves exactly one row for the pair; an
   * existing pair is left as it was; every other pair is joined exactly when it was before.
   */
  lemma AddParticipant(ps: seq<ParticipantRow>, hackathonId: int, userId: int, now: int)
    requires UniqueParticipants(ps)
    ensures var r := ParticipantAdded(ps, hackathonId, userId, now);
      && UniqueParticipants(r)
      && PairCount(r, hackathonId, userId) == 1
      && (Joined(ps, hackathonId, userId) ==> r == ps)
      && forall h, u :: h != hackathonId || u != userId ==> (Joined(r, h, u) <==> Joined(ps, h, u))
  {
    var r := ParticipantAdded(ps, hackathonId, userId, now);
    if !Joined(ps, hackathonId, userId) {
      forall a, b | 0 <= a < b < |r|
        ensures r[a].hackathonId != r[b].hackathonId || r[a].userId != r[b].userId
      {
        if b == |ps| {
          assert r[a] == ps[a] && r[a] in ps;
        } else {
          assert r[a] == ps[a] && r[b] == ps[b];
        }
      }
      forall h, u | h != hackathonId || u != userId
        ensures Joined(r, h, u) <==> Joined(ps, h, u)
      {
        if Joined(r, h, u) {
          var p :| p in r && p.hackathonId == h && p.userId == u;
          assert p in ps;
        }
      }
    }
    assert Joined(r, hackathonId, userId) by {
      if !Joined(ps, hackathonId, userId) {
        assert r[|ps|] in r;
      }
    }
    PairCountUnique(r, hackathonId, userId);
  }

  /** Adding the same pair twice leaves the table of the first addition. */
  lemma AddParticipantTwice(ps: seq<ParticipantRow>, hackathonId: int, userId: int, now: int, later: int)
    ensures var once := ParticipantAdded(ps, hackathonId, userId, now);
            ParticipantAdded(once, hackathonId, userId, later) == once
  {
    var once := ParticipantAdded(ps, hackathonId, userId, now);
    if !Joined(ps, hackathonId, userId) {
      assert once[|ps|] in once;
    }
  }

  /**
   * Removing a participant leaves no row for the pair, changes nothing when there was none,
   * and keeps every other pair joined exactly when it was.
   */
  lemma RemoveParticipant(ps: seq<ParticipantRow>, hackathonId: int, userId: int)
    ensures var r := ParticipantRemoved(ps, hackathonId, userId);
      && !Joined(r, hackathonId, userId)
      && (!Joined(ps, hackathonId, userId) ==> r == ps)
      && forall h, u :: h != hackathonId || u != userId ==> (Joined(r, h, u) <==> Joined(ps, h, u))
  {
    var r := ParticipantRemoved(ps, hackathonId, userId);
    forall h, u | h != hackathonId || u != userId
      ensures Joined(r, h, u) <==> Joined(ps, h, u)
    {
      if Joined(ps, h, u) {
        var p :| p in ps && p.hackathonId == h && p.userId == u;
        assert p in r;
      }
    }
  }

  /** One joined participant of the listing: the user's name and the join time. */
  datatype Joiner = Joiner(username: string, joinedAt: int)

  /** `x` is the join of a row of the hackathon with its user. */
  predicate JoinOf(ps: seq<ParticipantRow>, users: seq<string>, hackathonId: int, x: Joiner)
  {
    exists p :: p in ps && p.hackathonId == hackathonId && IsRowId(p.userId, |users|) && x == Joiner(users[p.userId - 1], p.joinedAt)
  }

  /** The hackathon's rows joined with `users`, in table order (a row without user is dropped). */
  function Joiners(ps: seq<ParticipantRow>, users: seq<string>, hackathonId: int): (r: seq<Joiner>)
    ensures forall x :: x in r <==> JoinOf(ps, users, hackathonId, x)
  {
    if ps == [] then []
    else
      assert ps == [ps[0]] + ps[1..];
      var p := ps[0];
      (if p.hackathonId == hackathonId && IsRowId(p.userId, |users|) then [Joiner(users[p.userId - 1], p.joinedAt)] else [])
      + Joiners(ps[1..], users, hackathonId)
  }

  /** `ORDER BY hp.joined_at ASC`. */
  predicate JoinedBefore(a: Joiner, b: Joiner)
  {
    a.joinedAt <= b.joinedAt
  }

  /** The joined participants of the hackathon, earliest first. */
  function ParticipantsByJoinTime(db: Database, hackathonId: int): seq<Joiner>
    reads db
  {
    Ordering.Sort(Joiners(db.participants, db.users, hackathonId), JoinedBefore)
  }

  /** `getHackathonParticipants`: the usernames of that listing. */
  function GetHackathonParticipants(db: Database, hackathonId: int): (r: seq<string>)
    reads db
    ensures |r| == |ParticipantsByJoinTime(db, hackathonId)|
    ensures forall i :: 0 <= i < |r| ==> r[i] == ParticipantsByJoinTime(db, hackathonId)[i].username
  {
    var js := ParticipantsByJoinTime(db, hackathonId);
    seq(|js|, i requires 0 <= i < |js| => js[i].username)
  }

  /**
   * The listing names the participants in join order: it is the username column of a listing
   * sorted by join time that holds every joined row of the hackathon exactly as often as the
   * table does, and nothing else.
   */
  lemma ParticipantsListing(db: Database, hackathonId: int)
    ensures var js := ParticipantsByJoinTime(db, hackathonId);
      && (forall i, j :: 0 <= i < j < |js| ==> js[i].joinedAt <= js[j].joinedAt)
      && multiset(js) == multiset(Joiners(db.participants, db.users, hackathonId))
      && (forall p :: p in db.participants && p.hackathonId == hackathonId && IsRowId(p.userId, |db.users|) ==>
            Joiner(db.users[p.userId - 1], p.joinedAt) in js)
      && forall x :: x in js ==> JoinOf(db.participants, db.users, hackathonId, x)
  {
    var all := Joiners(db.participants, db.users, hackathonId);
    var js := ParticipantsByJoinTime(db, hackathonId);
    forall p | p in db.participants && p.hackathonId == hackathonId && IsRowId(p.userId, |db.users|)
      ensures Joiner(db.users[p.userId - 1], p.joinedAt) in js
    {
      assert Joiner(db.users[p.userId - 1], p.joinedAt) in all;
      assert Joiner(db.users[p.userId - 1], p.joinedAt) in multiset(all);
    }
    forall x | x in js
      ensures JoinOf(db.participants, db.users, hackathonId, x)
    {
      assert x in multiset(all);
      assert x in all;
    }
  }

  // ---------------------------------------------------------------------------------------
  // Team randomization

  /** The user ids the participants query of `randomizeTeams` returns, before the shuffle. */
  function Pool(ps: seq<ParticipantRow>, userCount: nat, hackathonId: int): (r: seq<int>)
    ensures forall x :: x in r ==> IsRowId(x, userCount)
    ensures forall x :: x in r <==> Joined(ps, hackathonId, x) && IsRowId(x, userCount)
    ensures UniqueParticipants(ps) ==> Distinct(r)
  {
    if ps == [] then []
    else
      assert ps == [ps[0]] + ps[1..];
      var rest := Pool(ps[1..], userCount, hackathonId);
      assert forall x :: Joined(ps, hackathonId, x) <==>
        (ps[0].hackathonId == hackathonId && ps[0].userId == x) || Joined(ps[1..], hackathonId, x);
      assert UniqueParticipants(ps) ==> UniqueParticipants(ps[1..]) by {
        if UniqueParticipants(ps) {
          UniqueTail(ps);
        }
      }
      if ps[0].hackathonId == hackathonId && IsRowId(ps[0].userId, userCount) then
        assert UniqueParticipants(ps) ==> Distinct([ps[0].userId] + rest) by {
          if UniqueParticipants(ps) {
            forall k | 0 <= k < |ps[1..]|
              ensures ps[1..][k].hackathonId != hackathonId || ps[1..][k].userId != ps[0].userId
            {
              assert ps[1..][k] == ps[k + 1];
            }
            var r := [ps[0].userId] + rest;
            forall a, b | 0 <= a < b < |r| ensures r[a] != r[b] {
              assert r[b] == rest[b - 1];
              if a > 0 {
                assert r[a] == rest[a - 1];
              }
            }
          }
        }
        [ps[0].userId] + rest
      else
        rest
  }

  /** `DELETE FROM teams WHERE hackathon_id = h`: the teams of the other hackathons. */
  function KeptTeams(teams: map<int, TeamRow>, hackathonId: int): (r: map<int, TeamRow>)
    ensures forall t :: t in r <==> t in teams && teams[t].hackathonId != hackathonId
    ensures forall t :: t in r ==> r[t] == teams[t]
  {
    map t | t in teams && teams[t].hackathonId != hackathonId :: teams[t]
  }

  /** The `ON DELETE CASCADE` of `team_members.team_id`: the rows of the teams that stay. */
  function KeptMembers(members: seq<MemberRow>, teams: map<int, TeamRow>, hackathonId: int): (r: seq<MemberRow>)
    ensures forall m :: m in r <==> m in members && !(m.teamId in teams && teams[m.teamId].hackathonId == hackathonId)
    ensures forall t :: t in teams && teams[t].hackathonId != hackathonId ==> MembersOf(r, t) == MembersOf(members, t)
    ensures Distinct(members) ==> Distinct(r)
  {
    if members == [] then []
    else
      assert members == [members[0]] + members[1..];
      var rest := KeptMembers(members[1..], teams, hackathonId);
      assert Distinct(members) ==> Distinct(members[1..]) by {
        if Distinct(members) {
          forall a, b | 0 <= a < b < |members[1..]| ensures members[1..][a] != members[1..][b] {
            assert members[1..][a] == members[a + 1] && members[1..][b] == members[b + 1];
          }
        }
      }
      var m := members[0];
      if m.teamId in teams && teams[m.teamId].hackathonId == hackathonId then
        rest
      else
        assert Distinct(members) ==> Distinct([m] + rest) by {
          if Distinct(members) {
            forall k | 0 <= k < |members[1..]| ensures members[1..][k] != m {
              assert members[1..][k] == members[k + 1];
            }
            var r := [m] + rest;
            forall a, b | 0 <= a < b < |r| ensures r[a] != r[b] {
              assert r[b] == rest[b - 1];
              if a > 0 {
                assert r[a] == rest[a - 1];
              }
            }
          }
        }
        [m] + rest
  }

  /**
   * The teams after randomization: the hackathon owns exactly the new ids `next .. next+n-1`;
   * new team `i` is "Team i+1", without idea, created by `createdBy`; the teams of every other
   * hackathon are kept unchanged, and no other team exists.
   */
  lemma RandomizedTeams(teams: map<int, TeamRow>, next: int, hackathonId: int, n: nat, createdBy: int)
    requires forall t :: t in teams ==> t < next
    ensures var m := KeptTeams(teams, hackathonId) + NewTeams(next, n, hackathonId, createdBy);
      && (forall t :: t in m && m[t].hackathonId == hackathonId <==> next <= t < next + n)
      && (forall i :: 0 <= i < n ==> next + i in m && m[next + i] == TeamRow(TeamName(i), hackathonId, None, createdBy))
      && (forall t :: t in teams && teams[t].hackathonId != hackathonId ==> t in m && m[t] == teams[t])
      && forall t :: t in m ==> (t in teams && teams[t].hackathonId != hackathonId) || next <= t < next + n
  {
    var m := KeptTeams(teams, hackathonId) + NewTeams(next, n, hackathonId, createdBy);
    forall t | next <= t < next + n ensures t in m && m[t].hackathonId == hackathonId {
      assert m[next + (t - next)] == TeamRow(TeamName(t - next), hackathonId, None, createdBy);
    }
  }

  /**
   * The members after randomization: new team `next + i` holds column `i` of the shuffled
   * participants; a team of another hackathon keeps its members; a deleted team has none.
   */
  lemma RandomizedMembers(members: seq<MemberRow>, teams: map<int, TeamRow>, next: int, hackathonId: int, s: seq<int>, n: nat)
    requires forall t :: t in teams ==> t < next
    requires forall m :: m in members ==> m.teamId in teams
    ensures var ms := KeptMembers(members, teams, hackathonId) + Deal(s, n, next, n);
      && (forall i :: 0 <= i < n ==> MembersOf(ms, next + i) == Column(s, n, i))
      && (forall t :: t in teams && teams[t].hackathonId != hackathonId ==> MembersOf(ms, t) == MembersOf(members, t))
      && forall t :: t in teams && teams[t].hackathonId == hackathonId ==> MembersOf(ms, t) == []
  {
    var kept := KeptMembers(members, teams, hackathonId);
    var deal := Deal(s, n, next, n);
    forall i | 0 <= i < n ensures MembersOf(kept + deal, next + i) == Column(s, n, i) {
      MembersOfAppend(kept, deal, next + i);
      forall k | 0 <= k < |kept| ensures kept[k].teamId != next + i {
        assert kept[k] in kept;
      }
      MembersOfNone(kept, next + i);
      DealMembers(s, n, next, n, next + i);
    }
    forall t | t in teams
      ensures MembersOf(kept + deal, t) == MembersOf(kept, t) + MembersOf(deal, t)
      ensures MembersOf(deal, t) == []
      ensures teams[t].hackathonId == hackathonId ==> MembersOf(kept, t) == []
    {
      MembersOfAppend(kept, deal, t);
      DealMembers(s, n, next, n, t);
      if teams[t].hackathonId == hackathonId {
        forall k | 0 <= k < |kept| ensures kept[k].teamId != t {
          assert kept[k] in kept;
        }
        MembersOfNone(kept, t);
      }
    }
  }

  /**
   * Every shuffled participant lands in exactly one new team: the one with index `j mod n`.
   */
  lemma EveryParticipantPlacedOnce(members: seq<MemberRow>, teams: map<int, TeamRow>, next: int, hackathonId: int, s: seq<int>, n: nat)
    requires forall t :: t in teams ==> t < next
    requires forall m :: m in members ==> m.teamId in teams
    requires n > 0 && Distinct(s)
    ensures var ms := KeptMembers(members, teams, hackathonId) + Deal(s, n, next, n);
      forall j, t :: 0 <= j < |s| && next <= t < next + n ==> (s[j] in MembersOf(ms, t) <==> t == next + j % n)
  {
    RandomizedMembers(members, teams, next, hackathonId, s, n);
    RoundRobinPartition(s, n);
    var ms := KeptMembers(members, teams, hackathonId) + Deal(s, n, next, n);
    forall j, t | 0 <= j < |s| && next <= t < next + n
      ensures s[j] in MembersOf(ms, t) <==> t == next + j % n
    {
      assert MembersOf(ms, next + (t - next)) == Column(s, n, t - next);
    }
  }

  lemma {:induction false} ColumnRowsFrom(s: seq<int>, n: nat, j: nat, teamId: int)
    requires n > 0
    ensures forall r :: r in ColumnRows(s, n, j, teamId) ==> exists k :: j <= k < |s| && r == MemberRow(teamId, s[k])
    ensures Distinct(s) ==> Distinct(ColumnRows(s, n, j, teamId))
    decreases |s| - j
  {
    if j < |s| {
      ColumnRowsFrom(s, n, j + n, teamId);
      var rest := ColumnRows(s, n, j + n, teamId);
      if Distinct(s) {
        forall r | r in rest ensures r != MemberRow(teamId, s[j]) {
          var k :| j + n <= k < |s| && r == MemberRow(teamId, s[k]);
          assert s[j] != s[k];
        }
        DistinctConcat([MemberRow(teamId, s[j])], rest);
      }
    }
  }

  lemma {:induction false} DealDistinct(s: seq<int>, n: nat, first: int, k: nat)
    requires k <= n && Distinct(s)
    ensures Distinct(Deal(s, n, first, k))
  {
    if k > 0 {
      DealDistinct(s, n, first, k - 1);
      DealShape(s, n, first, k - 1);
      ColumnRowsShape(s, n, k - 1, first + k - 1);
      ColumnRowsFrom(s, n, k - 1, first + k - 1);
      DistinctConcat(Deal(s, n, first, k - 1), ColumnRows(s, n, k - 1, first + k - 1));
    }
  }

  /** Randomization keeps the schema constraints of `teams` and `team_members`. */
  lemma RandomizedValid(teams: map<int, TeamRow>, members: seq<MemberRow>, next: int, userCount: nat, hackathonId: int, s: seq<int>, n: nat)
    requires TeamsOk(teams, next, userCount) && MembersOk(members, teams, userCount)
    requires s != [] && Distinct(s) && forall x :: x in s ==> IsRowId(x, userCount)
    ensures var m := KeptTeams(teams, hackathonId) + NewTeams(next, n, hackathonId, s[0]);
      && TeamsOk(m, next + n, userCount)
      && MembersOk(KeptMembers(members, teams, hackathonId) + Deal(s, n, next, n), m, userCount)
  {
    RandomizedTeamsOk(teams, next, userCount, hackathonId, s, n);
    RandomizedMembersOk(teams, members, next, userCount, hackathonId, s, n);
  }

  lemma RandomizedMembersOk(teams: map<int, TeamRow>, members: seq<MemberRow>, next: int, userCount: nat, hackathonId: int, s: seq<int>, n: nat)
    requires TeamsOk(teams, next, userCount) && MembersOk(members, teams, userCount)
    requires s != [] && Distinct(s) && forall x :: x in s ==> IsRowId(x, userCount)
    ensures var m := KeptTeams(teams, hackathonId) + NewTeams(next, n, hackathonId, s[0]);
      MembersOk(KeptMembers(members, teams, hackathonId) + Deal(s, n, next, n), m, userCount)
  {
    var m := KeptTeams(teams, hackathonId) + NewTeams(next, n, hackathonId, s[0]);
    var kept := KeptMembers(members, teams, hackathonId);
    var deal := Deal(s, n, next, n);
    RandomizedMembersDistinct(teams, members, next, userCount, hackathonId, s, n);
    RandomizedTeams(teams, next, hackathonId, n, s[0]);
    DealShape(s, n, next, n);
    var ms := kept + deal;
    forall k | 0 <= k < |ms| ensures ms[k].teamId in m && IsRowId(ms[k].userId, userCount) {
      if k < |kept| {
        assert ms[k] == kept[k] && kept[k] in kept;
        var j :| 0 <= j < |members| && members[j] == kept[k];
      } else {
        assert ms[k] == deal[k - |kept|] && deal[k - |kept|] in deal;
      }
    }
  }

  lemma RandomizedMembersDistinct(teams: map<int, TeamRow>, members: seq<MemberRow>, next: int, userCount: nat, hackathonId: int, s: seq<int>, n: nat)
    requires TeamsOk(teams, next, userCount) && MembersOk(members, teams, userCount) && Distinct(s)
    ensures Distinct(KeptMembers(members, teams, hackathonId) + Deal(s, n, next, n))
  {
    var kept := KeptMembers(members, teams, hackathonId);
    var deal := Deal(s, n, next, n);
    DealShape(s, n, next, n);
    DealDistinct(s, n, next, n);
    assert Distinct(members) by {
      forall a, b | 0 <= a < b < |members| ensures members[a] != members[b] {
      }
    }
    forall x | x in kept ensures x !in deal {
      var k :| 0 <= k < |members| && members[k] == x;
    }
    DistinctConcat(kept, deal);
  }

  lemma RandomizedTeamsOk(teams: map<int, TeamRow>, next: int, userCount: nat, hackathonId: int, s: seq<int>, n: nat)
    requires TeamsOk(teams, next, userCount)
    requires s != [] && forall x :: x in s ==> IsRowId(x, userCount)
    ensures TeamsOk(KeptTeams(teams, hackathonId) + NewTeams(next, n, hackathonId, s[0]), next + n, userCount)
  {
    var m := KeptTeams(teams, hackathonId) + NewTeams(next, n, hackathonId, s[0]);
    RandomizedTeams(teams, next, hackathonId, n, s[0]);
    assert s[0] in s;
    forall t | t in m ensures 1 <= t < next + n && IsRowId(m[t].createdBy, userCount) {
      if next <= t < next + n {
        assert m[next + (t - next)] == TeamRow(TeamName(t - next), hackathonId, None, s[0]);
      }
    }
  }

  /**
   * The as-written team count for a negative team size: after randomization the hackathon owns
   * no team at all, although it has participants.
   */
  lemma NoTeamsLeft(teams: map<int, TeamRow>, next: int, hackathonId: int, s: seq<int>, teamSize: int)
    requires teamSize < 0 && s != []
    requires forall t :: t in teams ==> t < next
    ensures var m := KeptTeams(teams, hackathonId) + NewTeams(next, TeamsCreated(|s|, teamSize), hackathonId, s[0]);
            forall t :: t in m ==> m[t].hackathonId != hackathonId
  {
    NegativeTeamSizeCreatesNone(|s|, teamSize);
  }

  lemma AddTeamStep(kept: map<int, TeamRow>, first: int, i: nat, hackathonId: int, createdBy: int)
    ensures (kept + NewTeams(first, i, hackathonId, createdBy))[first + i := TeamRow(TeamName(i), hackathonId, None, createdBy)]
            == kept + NewTeams(first, i + 1, hackathonId, createdBy)
  {
  }

  /** The shuffled pool repeats no participant and holds only existing users. */
  lemma ShuffledPool(ps: seq<ParticipantRow>, userCount: nat, hackathonId: int, shuffled: seq<int>)
    requires UniqueParticipants(ps)
    requires multiset(shuffled) == multiset(Pool(ps, userCount, hackathonId))
    ensures Distinct(shuffled) && forall x :: x in shuffled ==> IsRowId(x, userCount)
  {
    var pool := Pool(ps, userCount, hackathonId);
    PermutationDistinct(pool, shuffled);
    forall x | x in shuffled ensures IsRowId(x, userCount) {
      assert x in multiset(shuffled);
      assert x in multiset(pool);
    }
  }

  lemma ConcatAssoc<T>(a: seq<T>, b: seq<T>, c: seq<T>)
    ensures (a + b) + c == a + (b + c)
  {
  }

  lemma DealStep(kept: seq<MemberRow>, s: seq<int>, n: nat, first: int, i: nat)
    requires i < n
    ensures (kept + Deal(s, n, first, i)) + ColumnRows(s, n, i, first + i) == kept + Deal(s, n, first, i + 1)
  {
    ConcatAssoc(kept, Deal(s, n, first, i), ColumnRows(s, n, i, first + i));
  }

  lemma ColumnRowsStep(ms: seq<MemberRow>, s: seq<int>, n: nat, j: nat, teamId: int)
    requires n > 0 && j < |s|
    ensures (ms + [MemberRow(teamId, s[j])]) + ColumnRows(s, n, j + n, teamId) == ms + ColumnRows(s, n, j, teamId)
  {
    assert ColumnRows(s, n, j, teamId) == [MemberRow(teamId, s[j])] + ColumnRows(s, n, j + n, teamId);
  }

  /** `addHackathonParticipant`. */
  method AddHackathonParticipant(db: Database, hackathonId: int, userId: int, now: int)
    modifies db
    requires db.Valid()
    ensures db.Valid()
    ensures db.participants == ParticipantAdded(old(db.participants), hackathonId, userId, now)
    ensures db.users == old(db.users) && db.ideas == old(db.ideas) && db.votes == old(db.votes)
    ensures db.comments == old(db.comments) && db.teams == old(db.teams)
    ensures db.nextTeamId == old(db.nextTeamId) && db.members == old(db.members)
  {
    AddParticipant(db.participants, hackathonId, userId, now);
    db.participants := ParticipantAdded(db.participants, hackathonId, userId, now);
  }

  /** `removeHackathonParticipant`. */
  method RemoveHackathonParticipant(db: Database, hackathonId: int, userId: int)
    modifies db
    requires db.Valid()
    ensures db.Valid()
    ensures db.participants == ParticipantRemoved(old(db.participants), hackathonId, userId)
    ensures db.users == old(db.users) && db.ideas == old(db.ideas) && db.votes == old(db.votes)
    ensures db.comments == old(db.comments) && db.teams == old(db.teams)
    ensures db.nextTeamId == old(db.nextTeamId) && db.members == old(db.members)
  {
    RemovedUnique(db.participants, hackathonId, userId);
    db.participants := ParticipantRemoved(db.participants, hackathonId, userId);
  }

  /** `DELETE FROM teams WHERE hackathon_id = h`, with the cascade to `team_members`. */
  method DeleteHackathonTeams(db: Database, hackathonId: int)
    modifies db
    ensures db.teams == KeptTeams(old(db.teams), hackathonId)
    ensures db.members == KeptMembers(old(db.members), old(db.teams), hackathonId)
    ensures db.users == old(db.users) && db.ideas == old(db.ideas) && db.votes == old(db.votes)
    ensures db.comments == old(db.comments) && db.participants == old(db.participants)
    ensures db.nextTeamId == old(db.nextTeamId)
  {
    db.members := KeptMembers(db.members, db.teams, hackathonId);
    db.teams := KeptTeams(db.teams, hackathonId);
  }

  /** `INSERT INTO teams (name, hackathon_id, created_by) ... RETURNING id`: the next SERIAL id. */
  method InsertTeam(db: Database, name: string, hackathonId: int, createdBy: int) returns (teamId: int)
    modifies db
    ensures teamId == old(db.nextTeamId) && db.nextTeamId == teamId + 1
    ensures db.teams == old(db.teams)[teamId := TeamRow(name, hackathonId, None, createdBy)]
    ensures db.users == old(db.users) && db.ideas == old(db.ideas) && db.votes == old(db.votes)
    ensures db.comments == old(db.comments) && db.participants == old(db.participants)
    ensures db.members == old(db.members)
  {
    teamId := db.nextTeamId;
    db.teams := db.teams[teamId := TeamRow(name, hackathonId, None, createdBy)];
    db.nextTeamId := db.nextTeamId + 1;
  }

  /** `INSERT INTO team_members (team_id, user_id)`. */
  method InsertMember(db: Database, teamId: int, userId: int)
    modifies db
    ensures db.members == old(db.members) + [MemberRow(teamId, userId)]
    ensures db.users == old(db.users) && db.ideas == old(db.ideas) && db.votes == old(db.votes)
    ensures db.comments == old(db.comments) && db.participants == old(db.participants)
    ensures db.teams == old(db.teams) && db.nextTeamId == old(db.nextTeamId)
  {
    db.members := db.members + [MemberRow(teamId, userId)];
  }

  /**
   * The inner loop of `randomizeTeams`: `for (let j = start; j < length; j += step)` inserts the
   * membership of participant `j` in team `teamId`.
   */
  method AddMembersRoundRobin(db: Database, teamId: int, shuffled: seq<int>, start: nat, step: int)
    modifies db
    requires step > 0
    ensures db.members == old(db.members) + ColumnRows(shuffled, step, start, teamId)
    ensures db.users == old(db.users) && db.ideas == old(db.ideas) && db.votes == old(db.votes)
    ensures db.comments == old(db.comments) && db.participants == old(db.participants)
    ensures db.teams == old(db.teams) && db.nextTeamId == old(db.nextTeamId)
  {
    var j := start;
    while j < |shuffled|
      invariant start <= j
      invariant db.members + ColumnRows(shuffled, step, j, teamId) == old(db.members) + ColumnRows(shuffled, step, start, teamId)
      invariant db.users == old(db.users) && db.ideas == old(db.ideas) && db.votes == old(db.votes)
      invariant db.comments == old(db.comments) && db.participants == old(db.participants)
      invariant db.teams == old(db.teams) && db.nextTeamId == old(db.nextTeamId)
      decreases |shuffled| - j
    {
      ColumnRowsStep(db.members, shuffled, step, j, teamId);
      InsertMember(db, teamId, shuffled[j]);
      j := j + step;
    }
  }

  /**
   * The outer loop of `randomizeTeams`: for `i` in `0 .. numTeams-1`, insert "Team i+1"
   * created by the first shuffled participant, then its members round-robin.
   */
  method CreateTeams(db: Database, hackathonId: int, numTeams: int, shuffled: seq<int>)
    modifies db
    requires shuffled != []
    ensures var n := if numTeams > 0 then numTeams else 0;
      && db.teams == old(db.teams) + NewTeams(old(db.nextTeamId), n, hackathonId, shuffled[0])
      && db.nextTeamId == old(db.nextTeamId) + n
      && db.members == old(db.members) + Deal(shuffled, n, old(db.nextTeamId), n)
    ensures db.users == old(db.users) && db.ideas == old(db.ideas) && db.votes == old(db.votes)
    ensures db.comments == old(db.comments) && db.participants == old(db.participants)
  {
    ghost var first := db.nextTeamId;
    if numTeams <= 0 {
      assert old(db.teams) + NewTeams(first, 0, hackathonId, shuffled[0]) == old(db.teams);
      assert old(db.members) + Deal(shuffled, 0, first, 0) == old(db.members);
      return;
    }
    var i := 0;
    while i < numTeams
      invariant 0 <= i <= numTeams
      invariant db.nextTeamId == first + i
      invariant db.teams == old(db.teams) + NewTeams(first, i, hackathonId, shuffled[0])
      invariant db.members == old(db.members) + Deal(shuffled, numTeams, first, i)
      invariant db.users == old(db.users) && db.ideas == old(db.ideas) && db.votes == old(db.votes)
      invariant db.comments == old(db.comments) && db.participants == old(db.participants)
    {
      CreateTeam(db, hackathonId, numTeams, shuffled, i, old(db.teams), old(db.members), first);
      i := i + 1;
    }
  }

  /** One pass of the outer loop: team `i` and its column of participants. */
  method CreateTeam(db: Database, hackathonId: int, numTeams: int, shuffled: seq<int>, i: nat,
                    ghost teams: map<int, TeamRow>, ghost members: seq<MemberRow>, ghost first: int)
    modifies db
    requires shuffled != [] && i < numTeams
    requires db.nextTeamId == first + i
    requires db.teams == teams + NewTeams(first, i, hackathonId, shuffled[0])
    requires db.members == members + Deal(shuffled, numTeams, first, i)
    ensures db.nextTeamId == first + i + 1
    ensures db.teams == teams + NewTeams(first, i + 1, hackathonId, shuffled[0])
    ensures db.members == members + Deal(shuffled, numTeams, first, i + 1)
    ensures db.users == old(db.users) && db.ideas == old(db.ideas) && db.votes == old(db.votes)
    ensures db.comments == old(db.comments) && db.participants == old(db.participants)
  {
    ghost var row := TeamRow(TeamName(i), hackathonId, None, shuffled[0]);
    AddTeamStep(teams, first, i, hackathonId, shuffled[0]);
    DealStep(members, shuffled, numTeams, first, i);
    var teamId := InsertTeam(db, TeamName(i), hackathonId, shuffled[0]);
    assert teamId == first + i;
    assert db.teams == (teams + NewTeams(first, i, hackathonId, shuffled[0]))[first + i := row];
    AddMembersRoundRobin(db, teamId, shuffled, i, numTeams);
  }

  /**
   * `randomizeTeams(hackathonId, teamSize)`, given the result of the participants query in the
   * order `ORDER BY RANDOM()` produced (`shuffled`, a reordering of the pool). With no
   * participant nothing changes. Otherwise the hackathon's teams are deleted (their members by
   * cascade), `numTeams = Math.ceil(P / teamSize)` is computed, and the teams are created.
   */
  method RandomizeTeams(db: Database, hackathonId: int, teamSize: int, shuffled: seq<int>)
    modifies db
    requires db.Valid()
    requires teamSize != 0
    requires multiset(shuffled) == multiset(Pool(db.participants, |db.users|, hackathonId))
    ensures db.Valid()
    ensures db.users == old(db.users) && db.ideas == old(db.ideas) && db.votes == old(db.votes)
    ensures db.comments == old(db.comments) && db.participants == old(db.participants)
    ensures shuffled == [] ==>
      db.teams == old(db.teams) && db.nextTeamId == old(db.nextTeamId) && db.members == old(db.members)
    ensures shuffled != [] ==>
      var n := TeamsCreated(|shuffled|, teamSize);
      && db.teams == KeptTeams(old(db.teams), hackathonId) + NewTeams(old(db.nextTeamId), n, hackathonId, shuffled[0])
      && db.nextTeamId == old(db.nextTeamId) + n
      && db.members == KeptMembers(old(db.members), old(db.teams), hackathonId) + Deal(shuffled, n, old(db.nextTeamId), n)
  {
    if |shuffled| == 0 {
      return;
    }
    DeleteHackathonTeams(db, hackathonId);
    var numTeams := NumTeams(|shuffled|, teamSize);
    CreateTeams(db, hackathonId, numTeams, shuffled);
    ShuffledPool(old(db.participants), |old(db.users)|, hackathonId, shuffled);
    RandomizedValid(old(db.teams), old(db.members), old(db.nextTeamId), |old(db.users)|, hackathonId, shuffled, TeamsCreated(|shuffled|, teamSize));
  }

  /** The generated names "Team 1", "Team 2", ... are pairwise different. */
  lemma TeamNamesDistinct(i: nat, k: nat)
    requires i != k
    ensures TeamName(i) != TeamName(k)
  {
    if TeamName(i) == TeamName(k) {
      assert Js.NatToString(i + 1) == TeamName(i)[5..] == TeamName(k)[5..] == Js.NatToString(k + 1);
      Js.NatToStringInjective(i + 1, k + 1);
    }
  }

  /**
   * With a team size of at least 1 a hackathon with participants keeps teams: the first new id
   * is one of its teams, and between 1 and `|s|` teams are created.
   */
  lemma CheckedRandomizationKeepsTeams(teams: map<int, TeamRow>, next: int, hackathonId: int, s: seq<int>, teamSize: int)
    requires teamSize >= 1 && s != []
    requires forall t :: t in teams ==> t < next
    ensures var n := TeamsCreated(|s|, teamSize);
            var m := KeptTeams(teams, hackathonId) + NewTeams(next, n, hackathonId, s[0]);
            1 <= n <= |s| && next in m && m[next].hackathonId == hackathonId
  {
    TeamCountBounds(|s|, teamSize);
    var n := TeamsCreated(|s|, teamSize);
    assert NewTeams(next, n, hackathonId, s[0])[next + 0] == TeamRow(TeamName(0), hackathonId, None, s[0]);
  }

  /**
   * `randomizeTeams` behind the guard the hackathon page applies before calling it (a team
   * size below 1 is refused): a refused call changes nothing, an accepted one is
   * `RandomizeTeams`.
   */
  method RandomizeTeamsChecked(db: Database, hackathonId: int, teamSize: int, shuffled: seq<int>) returns (accepted: bool)
    modifies db
    requires db.Valid()
    requires multiset(shuffled) == multiset(Pool(db.participants, |db.users|, hackathonId))
    ensures db.Valid()
    ensures accepted <==> teamSize >= 1
    ensures !accepted ==> unchanged(db)
    ensures accepted && shuffled != [] ==>
      var n := TeamsCreated(|shuffled|, teamSize);
      && db.teams == KeptTeams(old(db.teams), hackathonId) + NewTeams(old(db.nextTeamId), n, hackathonId, shuffled[0])
      && db.nextTeamId == old(db.nextTeamId) + n
      && db.members == KeptMembers(old(db.members), old(db.teams), hackathonId) + Deal(shuffled, n, old(db.nextTeamId), n)
      && 1 <= n <= |shuffled|
      && old(db.nextTeamId) in db.teams && db.teams[old(db.nextTeamId)].hackathonId == hackathonId
    ensures accepted && shuffled == [] ==>
      db.teams == old(db.teams) && db.nextTeamId == old(db.nextTeamId) && db.members == old(db.members)
  {
    if teamSize < 1 {
      return false;
    }
    if shuffled != [] {
      CheckedRandomizationKeepsTeams(db.teams, db.nextTeamId, hackathonId, shuffled, teamSize);
    }
    RandomizeTeams(db, hackathonId, teamSize, shuffled);
    return true;
  }
}
