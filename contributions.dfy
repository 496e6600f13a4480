/** GetContributions (internal/handlers/contributions.go): the contribution
    history of one circle, newest first, each row joined with its user's
    name and email. Only a user holding a membership row in the circle may
    read it. */
module ContributionsHandler {
  import opened Common
  import opened CircleModels
  import opened CircleTables
  import opened Store
  import opened Decimal

  datatype ContributionResponse = ContributionResponse(
    id: Id,
    userId: Id,
    userName: string,
    userEmail: string,
    amount: Amount,
    month: Moment,
    createdAt: Moment)

  datatype ContributionsError =
    | InvalidCircleId   // the id is not a decimal int
    | CircleNotFound    // the caller holds no membership row in the circle

  function HttpStatus(e: ContributionsError): int
  {
    match e
    case InvalidCircleId => 400
    case CircleNotFound => 403
  }

  // ---------------------------------------------------------------------
  // `Order("created_at DESC")`

  /** Newest first: no row was created later than the one before it. */
  predicate NewestFirstOrder(rows: seq<Contribution>)
  {
    forall i, j :: 0 <= i < j < |rows| ==> rows[j].createdAt.instant <= rows[i].createdAt.instant
  }

  /** Places `x` after every row created at or after it. */
  function InsertByCreation(x: Contribution, sorted: seq<Contribution>): (r: seq<Contribution>)
  {
    if sorted == [] then [x]
    else if x.createdAt.instant <= sorted[0].createdAt.instant then [sorted[0]] + InsertByCreation(x, sorted[1..])
    else [x] + sorted
  }

  /** The rows ordered newest first; rows created at the same instant keep
      their table order. */
  function NewestFirst(rows: seq<Contribution>): (r: seq<Contribution>)
    decreases |rows|
  {
    if rows == [] then []
    else InsertByCreation(rows[|rows| - 1], NewestFirst(rows[..|rows| - 1]))
  }

  /** Inserting adds exactly `x`. */
  lemma {:induction false} InsertByCreationAddsRow(x: Contribution, sorted: seq<Contribution>)
    ensures multiset(InsertByCreation(x, sorted)) == multiset(sorted) + multiset{x}
  {
    if sorted != [] {
      assert sorted == [sorted[0]] + sorted[1..];
      if x.createdAt.instant <= sorted[0].createdAt.instant {
        InsertByCreationAddsRow(x, sorted[1..]);
      }
    }
  }

  /** Inserting into a newest-first listing keeps it newest first. */
  lemma {:induction false} InsertByCreationKeepsOrder(x: Contribution, sorted: seq<Contribution>)
    requires NewestFirstOrder(sorted)
    ensures NewestFirstOrder(InsertByCreation(x, sorted))
  {
    if sorted != [] && x.createdAt.instant <= sorted[0].createdAt.instant {
      var head := sorted[0];
      var rest := InsertByCreation(x, sorted[1..]);
      InsertByCreationKeepsOrder(x, sorted[1..]);
      InsertByCreationAddsRow(x, sorted[1..]);
      forall k | 0 <= k < |rest|
        ensures rest[k].createdAt.instant <= head.createdAt.instant
      {
        var y := rest[k];
        assert y in multiset(rest);
        if y != x {
          assert y in multiset(sorted[1..]);
          var m :| 0 <= m < |sorted[1..]| && sorted[1..][m] == y;
          assert sorted[m + 1] == y;
        }
      }
      var r := [head] + rest;
      forall i, j | 0 <= i < j < |r|
        ensures r[j].createdAt.instant <= r[i].createdAt.instant
      {
        assert r[j] == rest[j - 1];
        if i > 0 {
          assert r[i] == rest[i - 1];
        }
      }
    } else if sorted != [] {
      var r := [x] + sorted;
      forall i, j | 0 <= i < j < |r|
        ensures r[j].createdAt.instant <= r[i].createdAt.instant
      {
        assert r[j] == sorted[j - 1];
        if i > 0 {
          assert r[i] == sorted[i - 1];
        }
      }
    }
  }

  /** The listing is ordered newest first and holds exactly the selected
      rows, each as often as in the table. */
  lemma {:induction false} NewestFirstSortsRows(rows: seq<Contribution>)
    ensures NewestFirstOrder(NewestFirst(rows))
    ensures multiset(NewestFirst(rows)) == multiset(rows)
    decreases |rows|
  {
    if rows != [] {
      var prefix := rows[..|rows| - 1];
      NewestFirstSortsRows(prefix);
      InsertByCreationKeepsOrder(rows[|rows| - 1], NewestFirst(prefix));
      InsertByCreationAddsRow(rows[|rows| - 1], NewestFirst(prefix));
      assert rows == prefix + [rows[|rows| - 1]];
    }
  }

  // ---------------------------------------------------------------------
  // The response

  /** The user ids of `rows` in order of first appearance, each once. */
  function DistinctUserIds(rows: seq<Contribution>): (ids: seq<Id>)
    decreases |rows|
  {
    if rows == [] then []
    else
      var earlier := DistinctUserIds(rows[..|rows| - 1]);
      if rows[|rows| - 1].userId in earlier then earlier else earlier + [rows[|rows| - 1].userId]
  }

  /** Every user id of the rows appears, nothing else does, and none twice. */
  lemma {:induction false} DistinctUserIdsHold(rows: seq<Contribution>)
    ensures forall x :: x in DistinctUserIds(rows) <==> exists r :: r in rows && r.userId == x
    ensures forall i, j :: 0 <= i < j < |DistinctUserIds(rows)| ==> DistinctUserIds(rows)[i] != DistinctUserIds(rows)[j]
    decreases |rows|
  {
    if rows != [] {
      var prefix := rows[..|rows| - 1];
      DistinctUserIdsHold(prefix);
      assert rows == prefix + [rows[|rows| - 1]];
    }
  }

  /** `Where("circle_id = ?", circleID)` on the contributions table. */
  function ContributionIn(c: int): Contribution -> bool
  {
    (x: Contribution) => x.circleId == c
  }

  /** `Where("id IN ?", userIDs)` on the users table. */
  function UserIdIn(ids: seq<Id>): User -> bool
  {
    (u: User) => u.id in ids
  }

  function IdOf(u: User): Id { u.id }
  function Itself(u: User): User { u }

  /** Go's zero `models.User`: its name and email are empty. */
  const NoUser: User := User(0, "", "", "")

  /** One response per row, with the user map's name and email for the
      row's user (empty strings when the user is missing). */
  function Responses(rows: seq<Contribution>, userMap: map<Id, User>): (r: seq<ContributionResponse>)
    ensures |r| == |rows|
  {
    seq(|rows|, i requires 0 <= i < |rows| =>
      var user := Lookup(userMap, rows[i].userId, NoUser);
      ContributionResponse(rows[i].id, rows[i].userId, user.name, user.email, rows[i].amount, rows[i].month,
        rows[i].createdAt))
  }

  /** The listing the handler answers with for circle `c`. */
  function Listing(users: seq<User>, contributions: seq<Contribution>, c: int): seq<ContributionResponse>
  {
    var rows := NewestFirst(Filter(contributions, ContributionIn(c)));
    var fetched := Filter(users, UserIdIn(DistinctUserIds(rows)));
    Responses(rows, IndexLast(fetched, IdOf, Itself))
  }

  /** `resp` carries row `x`'s own columns. */
  predicate Shows(resp: ContributionResponse, x: Contribution)
  {
    && resp.id == x.id && resp.userId == x.userId && resp.amount == x.amount
    && resp.month == x.month && resp.createdAt == x.createdAt
  }

  /** A response per row, in the rows' order. */
  lemma ResponsesShowRows(rows: seq<Contribution>, userMap: map<Id, User>)
    ensures forall i :: 0 <= i < |rows| ==> Shows(Responses(rows, userMap)[i], rows[i])
  {
  }

  /** Responses to a reordering of `selected` show exactly its rows. */
  lemma ShowsExactly(l: seq<ContributionResponse>, rows: seq<Contribution>, selected: seq<Contribution>)
    requires |l| == |rows| && multiset(rows) == multiset(selected)
    requires forall i :: 0 <= i < |rows| ==> Shows(l[i], rows[i])
    ensures forall i :: 0 <= i < |l| ==> exists x :: x in selected && Shows(l[i], x)
    ensures forall x :: x in selected ==> exists i :: 0 <= i < |l| && Shows(l[i], x)
  {
    forall i | 0 <= i < |l|
      ensures exists x :: x in selected && Shows(l[i], x)
    {
      assert rows[i] in multiset(selected);
    }
    forall x | x in selected
      ensures exists i :: 0 <= i < |l| && Shows(l[i], x)
    {
      assert x in multiset(rows);
      var i :| 0 <= i < |rows| && rows[i] == x;
    }
  }

  /** Responses to the rows of `selected` ordered newest first: one per
      row, each showing a row of `selected`, every row shown, newest
      first. */
  lemma NewestFirstResponses(selected: seq<Contribution>, userMap: map<Id, User>)
    ensures |Responses(NewestFirst(selected), userMap)| == |selected|
    ensures forall i :: 0 <= i < |selected| ==>
      exists x :: x in selected && Shows(Responses(NewestFirst(selected), userMap)[i], x)
    ensures forall x :: x in selected ==>
      exists i :: 0 <= i < |selected| && Shows(Responses(NewestFirst(selected), userMap)[i], x)
    ensures forall i, j :: 0 <= i < j < |selected| ==>
      Responses(NewestFirst(selected), userMap)[j].createdAt.instant <= Responses(NewestFirst(selected), userMap)[i].createdAt.instant
  {
    var rows := NewestFirst(selected);
    var l := Responses(rows, userMap);
    NewestFirstSortsRows(selected);
    assert |rows| == |selected| by {
      assert |multiset(rows)| == |multiset(selected)|;
    }
    ResponsesShowRows(rows, userMap);
    ShowsExactly(l, rows, selected);
    forall i, j | 0 <= i < j < |selected|
      ensures l[j].createdAt.instant <= l[i].createdAt.instant
    {
      assert Shows(l[i], rows[i]) && Shows(l[j], rows[j]);
    }
  }

  /** The listing is the responses to the circle's rows, newest first,
      under some user map. */
  lemma ListingRespondsToRows(users: seq<User>, contributions: seq<Contribution>, c: int)
    ensures exists userMap ::
      Listing(users, contributions, c) == Responses(NewestFirst(Filter(contributions, ContributionIn(c))), userMap)
  {
    var rows := NewestFirst(Filter(contributions, ContributionIn(c)));
    var userMap := IndexLast(Filter(users, UserIdIn(DistinctUserIds(rows))), IdOf, Itself);
    assert Listing(users, contributions, c) == Responses(rows, userMap);
  }

  /** The listing has one entry per contribution of the circle, each
      showing that row's columns and nothing from another circle, newest
      first. */
  lemma ListingIsCircleHistory(users: seq<User>, contributions: seq<Contribution>, c: int)
    ensures var l := Listing(users, contributions, c);
      && |l| == |Filter(contributions, ContributionIn(c))|
      && (forall i :: 0 <= i < |l| ==> exists x :: x in contributions && x.circleId == c && Shows(l[i], x))
      && (forall x :: x in contributions && x.circleId == c ==> exists i :: 0 <= i < |l| && Shows(l[i], x))
      && (forall i, j :: 0 <= i < j < |l| ==> l[j].createdAt.instant <= l[i].createdAt.instant)
  {
    var selected := Filter(contributions, ContributionIn(c));
    ListingRespondsToRows(users, contributions, c);
    var userMap :| Listing(users, contributions, c) == Responses(NewestFirst(selected), userMap);
    var l := Responses(NewestFirst(selected), userMap);
    NewestFirstResponses(selected, userMap);
    forall i | 0 <= i < |l|
      ensures exists x :: x in contributions && x.circleId == c && Shows(l[i], x)
    {
      var resp := l[i];
      var x :| x in selected && Shows(resp, x);
      assert ContributionIn(c)(x);
    }
    forall x | x in contributions && x.circleId == c
      ensures exists i :: 0 <= i < |l| && Shows(l[i], x)
    {
      assert ContributionIn(c)(x);
      assert x in selected;
    }
  }

  /** With user ids unique, an entry names the user whose id it carries. */
  lemma ListingNamesTheUser(users: seq<User>, contributions: seq<Contribution>, c: int, i: int, u: User)
    requires DistinctBy(users, IdOf)
    requires 0 <= i < |Listing(users, contributions, c)|
    requires u in users && u.id == Listing(users, contributions, c)[i].userId
    ensures Listing(users, contributions, c)[i].userName == u.name
    ensures Listing(users, contributions, c)[i].userEmail == u.email
  {
    var rows := NewestFirst(Filter(contributions, ContributionIn(c)));
    var ids := DistinctUserIds(rows);
    var fetched := Filter(users, UserIdIn(ids));
    DistinctUserIdsHold(rows);
    assert rows[i] in rows;
    assert u in fetched;
    forall y | y in fetched && IdOf(y) == IdOf(u)
      ensures Itself(y) == Itself(u)
    {
      DistinctSameKey(users, IdOf, y, u);
    }
    IndexLastAgrees(fetched, IdOf, Itself, u);
  }

  /** An entry whose user no longer exists has an empty name and email. */
  lemma ListingWithoutUser(users: seq<User>, contributions: seq<Contribution>, c: int, i: int)
    requires 0 <= i < |Listing(users, contributions, c)|
    requires !UserExists(users, Listing(users, contributions, c)[i].userId)
    ensures Listing(users, contributions, c)[i].userName == ""
    ensures Listing(users, contributions, c)[i].userEmail == ""
  {
  }

  // ---------------------------------------------------------------------
  // The handler

  method GetContributions(db: Database, idParam: string, caller: Id)
    returns (r: Result<seq<ContributionResponse>, ContributionsError>)
    ensures Atoi(idParam).None? ==> r == Failure(InvalidCircleId)
    ensures Atoi(idParam).Some? && !HasMembership(db.members, Atoi(idParam).value, caller) ==>
      r == Failure(CircleNotFound)
    ensures Atoi(idParam).Some? && HasMembership(db.members, Atoi(idParam).value, caller) ==>
      r == Success(Listing(db.users, db.contributions, Atoi(idParam).value))
  {
    var parsed := Atoi(idParam);
    if parsed.None? {
      return Failure(InvalidCircleId);
    }
    var circleId := parsed.value;
    if !HasMembership(db.members, circleId, caller) {
      return Failure(CircleNotFound);
    }
    var contributions := NewestFirst(Filter(db.contributions, ContributionIn(circleId)));
    var userIds := CollectUserIds(contributions);
    var users: seq<User> := [];
    if |userIds| > 0 {
      users := Filter(db.users, UserIdIn(userIds));
    }
    var userMap := UserMap(users);
    var response := BuildResponses(contributions, userMap);
    r := Success(response[..]);
  }

  /** The loop collecting each user id once, in order of first appearance,
      with a map remembering the ids already seen. */
  method CollectUserIds(contributions: seq<Contribution>) returns (userIds: seq<Id>)
    ensures userIds == DistinctUserIds(contributions)
  {
    userIds := [];
    var userIdMap: map<Id, bool> := map[];
    var i := 0;
    while i < |contributions|
      invariant 0 <= i <= |contributions|
      invariant userIds == DistinctUserIds(contributions[..i])
      invariant forall x :: x in userIdMap <==> x in userIds
      invariant forall x :: x in userIdMap ==> userIdMap[x]
    {
      var contrib := contributions[i];
      assert contributions[..i + 1][..i] == contributions[..i];
      if !Lookup(userIdMap, contrib.userId, false) {
        userIds := userIds + [contrib.userId];
        userIdMap := userIdMap[contrib.userId := true];
      }
      i := i + 1;
    }
    assert contributions[..i] == contributions;
  }

  /** The user lookup map, one loop over the fetched users. */
  method UserMap(users: seq<User>) returns (userMap: map<Id, User>)
    ensures userMap == IndexLast(users, IdOf, Itself)
  {
    userMap := map[];
    var k := 0;
    while k < |users|
      invariant 0 <= k <= |users|
      invariant userMap == IndexLast(users[..k], IdOf, Itself)
    {
      assert users[..k + 1] == users[..k] + [users[k]];
      IndexLastSnoc(users[..k], users[k], IdOf, Itself);
      userMap := userMap[users[k].id := users[k]];
      k := k + 1;
    }
    assert users[..k] == users;
  }

  /** The response array, allocated at its final length and filled in place. */
  method BuildResponses(contributions: seq<Contribution>, userMap: map<Id, User>)
    returns (response: array<ContributionResponse>)
    ensures fresh(response)
    ensures response[..] == Responses(contributions, userMap)
  {
    response := new ContributionResponse[|contributions|](_ => ContributionResponse(0, 0, "", "", 0, ZeroTime, ZeroTime));
    var i := 0;
    while i < |contributions|
      invariant 0 <= i <= |contributions|
      invariant response[..i] == Responses(contributions, userMap)[..i]
    {
      var contrib := contributions[i];
      var user := Lookup(userMap, contrib.userId, NoUser);
      response[i] := ContributionResponse(contrib.id, contrib.userId, user.name, user.email, contrib.amount,
        contrib.month, contrib.createdAt);
      i := i + 1;
    }
  }
}
