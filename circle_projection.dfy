/** GetCircle (internal/handlers/circle.go): the read-only view of one
    circle that a member of it may fetch. Besides the circle's columns it
    carries each member's role and status, the pending users the caller
    still has to vote on, whether the caller has an amount proposal to
    approve, and the approval flag of every active member. */
module CircleProjection {
  import opened Common
  import opened CircleModels
  import opened CircleTables
  import opened Store
  import opened CircleHandlers
  import opened Decimal

  datatype MemberView = MemberView(id: Id, email: string, name: string, role: string, status: string)

  datatype ApprovalStatus = ApprovalStatus(userId: Id, userName: string, approved: bool)

  datatype CircleView = CircleView(
    id: Id,
    name: string,
    description: string,
    amountPerMember: Amount,
    proposedAmount: Amount,
    creatorId: Id,
    members: seq<MemberView>,
    pendingApprovals: seq<Id>,
    needsAmountApproval: bool,
    amountApprovals: seq<ApprovalStatus>)

  // Columns, as first-class functions for the map-building loops.
  function UserOf(m: CircleMember): Id { m.userId }
  function StatusOf(m: CircleMember): string { m.status }
  function RoleOf(m: CircleMember): string { m.role }
  function VoterOf(a: AmountApproval): Id { a.approverId }
  function ApprovedOf(a: AmountApproval): bool { a.approved }

  function HoldsMembership(members: seq<CircleMember>, c: int): User -> bool
  {
    (u: User) => HasMembership(members, c, u.id)
  }

  /** `Preload("Members")`: the users who hold a membership row in the
      circle, in users-table order. */
  function CircleUsers(users: seq<User>, members: seq<CircleMember>, c: int): (r: seq<User>)
    ensures forall u {:trigger u in r} :: u in r <==> u in users && HasMembership(members, c, u.id)
  {
    Filter(users, HoldsMembership(members, c))
  }

  /** The `members` list: each circle user with the role and status the
      role and status maps hold for them ("" when absent). */
  function MemberViews(circleUsers: seq<User>, roles: map<Id, string>, statuses: map<Id, string>): (r: seq<MemberView>)
    ensures |r| == |circleUsers|
    ensures forall j :: 0 <= j < |r| ==> r[j].id == circleUsers[j].id && r[j].name == circleUsers[j].name
  {
    seq(|circleUsers|, j requires 0 <= j < |circleUsers| =>
      MemberView(circleUsers[j].id, circleUsers[j].email, circleUsers[j].name,
        Lookup(roles, circleUsers[j].id, ""), Lookup(statuses, circleUsers[j].id, "")))
  }

  function OpenVoteFor(c: int, approver: int): MemberApproval -> bool
  {
    (a: MemberApproval) => a.circleId == c && a.approverUserId == approver && !a.approved
  }

  /** `Pluck("pending_user_id")` over the caller's unapproved member votes
      in the circle, in table order. */
  function PendingApprovals(rows: seq<MemberApproval>, c: int, approver: int): (r: seq<Id>)
    ensures |r| == |Filter(rows, OpenVoteFor(c, approver))|
  {
    var open := Filter(rows, OpenVoteFor(c, approver));
    seq(|open|, i requires 0 <= i < |open| => open[i].pendingUserId)
  }

  /** The `amount_approvals` list: one entry per circle user whose status
      is "active", with the flag the approval map holds for them (false
      when absent). */
  function AmountApprovalViews(circleUsers: seq<User>, statuses: map<Id, string>, approvals: map<Id, bool>)
    : (r: seq<ApprovalStatus>)
    ensures |r| <= |circleUsers|
    decreases |circleUsers|
  {
    if circleUsers == [] then []
    else
      var u := circleUsers[|circleUsers| - 1];
      AmountApprovalViews(circleUsers[..|circleUsers| - 1], statuses, approvals) +
        (if Lookup(statuses, u.id, "") == StatusActive
         then [ApprovalStatus(u.id, u.name, Lookup(approvals, u.id, false))] else [])
  }

  /** The whole response for `circle`, fetched by `caller`. */
  function View(users: seq<User>, circle: Circle, members: seq<CircleMember>,
                memberApprovals: seq<MemberApproval>, amountApprovals: seq<AmountApproval>, caller: Id): CircleView
  {
    var circleUsers := CircleUsers(users, members, circle.id);
    var rows := MembersOf(members, circle.id);
    var statuses := IndexLast(rows, UserOf, StatusOf);
    var roles := IndexLast(rows, UserOf, RoleOf);
    var votes := Filter(amountApprovals, AmountVoteIn(circle.id));
    CircleView(circle.id, circle.name, circle.description, circle.amountPerMember, circle.proposedAmount,
      circle.creatorId, MemberViews(circleUsers, roles, statuses), PendingApprovals(memberApprovals, circle.id, caller),
      NeedsAmountApproval(amountApprovals, circle.id, caller),
      AmountApprovalViews(circleUsers, statuses, IndexLast(votes, VoterOf, ApprovedOf)))
  }

  /** GetCircle: the id must be a decimal number below 2^32; the circle is
      shown only to a user holding a membership row in it (pending or
      active), and anyone else is told it was not found. */
  method GetCircle(db: Database, idParam: string, caller: Id) returns (r: Result<CircleView, HandlerError>)
    ensures ParseUint32(idParam).None? ==> r == Failure(InvalidRequest)
    ensures ParseUint32(idParam).Some? ==>
      var c := ParseUint32(idParam).value;
      && (!(c in db.circles && HasMembership(db.members, c, caller)) ==> r == Failure(CircleNotFound))
      && (c in db.circles && HasMembership(db.members, c, caller) ==>
            r == Success(View(db.users, db.circles[c], db.members, db.memberApprovals, db.amountApprovals, caller)))
  {
    var parsed := ParseUint32(idParam);
    if parsed.None? {
      return Failure(InvalidRequest);
    }
    var c := parsed.value;
    if !(c in db.circles && HasMembership(db.members, c, caller)) {
      return Failure(CircleNotFound);
    }
    var circle := db.circles[c];
    var circleUsers := CircleUsers(db.users, db.members, circle.id);
    var statusMap, roleMap := MemberMaps(MembersOf(db.members, circle.id));
    var members := FillMembers(circleUsers, roleMap, statusMap);
    var pendingApprovals := PendingApprovals(db.memberApprovals, circle.id, caller);
    var approvalMap, amountApprovalCount := ScanAmountVotes(db.amountApprovals, circle.id, caller);
    var amountApprovalResponse := ListAmountApprovals(circleUsers, statusMap, approvalMap);
    r := Success(CircleView(circle.id, circle.name, circle.description, circle.amountPerMember,
      circle.proposedAmount, circle.creatorId, members[..], pendingApprovals, amountApprovalCount > 0,
      amountApprovalResponse));
  }

  /** The status and role maps, one loop over the circle's membership rows. */
  method MemberMaps(memberStatus: seq<CircleMember>) returns (statusMap: map<Id, string>, roleMap: map<Id, string>)
    ensures statusMap == IndexLast(memberStatus, UserOf, StatusOf)
    ensures roleMap == IndexLast(memberStatus, UserOf, RoleOf)
  {
    statusMap := map[];
    roleMap := map[];
    var k := 0;
    while k < |memberStatus|
      invariant 0 <= k <= |memberStatus|
      invariant statusMap == IndexLast(memberStatus[..k], UserOf, StatusOf)
      invariant roleMap == IndexLast(memberStatus[..k], UserOf, RoleOf)
    {
      assert memberStatus[..k + 1] == memberStatus[..k] + [memberStatus[k]];
      IndexLastSnoc(memberStatus[..k], memberStatus[k], UserOf, StatusOf);
      IndexLastSnoc(memberStatus[..k], memberStatus[k], UserOf, RoleOf);
      statusMap := statusMap[memberStatus[k].userId := memberStatus[k].status];
      roleMap := roleMap[memberStatus[k].userId := memberStatus[k].role];
      k := k + 1;
    }
    assert memberStatus[..k] == memberStatus;
  }

  /** The members array, allocated at its final length and filled in place. */
  method FillMembers(circleUsers: seq<User>, roleMap: map<Id, string>, statusMap: map<Id, string>)
    returns (members: array<MemberView>)
    ensures fresh(members)
    ensures members[..] == MemberViews(circleUsers, roleMap, statusMap)
  {
    members := new MemberView[|circleUsers|](_ => MemberView(0, "", "", "", ""));
    var j := 0;
    while j < |circleUsers|
      invariant 0 <= j <= |circleUsers|
      invariant members[..j] == MemberViews(circleUsers, roleMap, statusMap)[..j]
    {
      var u := circleUsers[j];
      members[j] := MemberView(u.id, u.email, u.name, Lookup(roleMap, u.id, ""), Lookup(statusMap, u.id, ""));
      j := j + 1;
    }
  }

  /** One loop over the circle's amount votes: the approval map by approver
      and the number of the caller's votes not yet approved, which is
      positive exactly when the caller needs to approve. */
  method ScanAmountVotes(rows: seq<AmountApproval>, c: Id, caller: Id)
    returns (approvalMap: map<Id, bool>, amountApprovalCount: nat)
    ensures approvalMap == IndexLast(Filter(rows, AmountVoteIn(c)), VoterOf, ApprovedOf)
    ensures amountApprovalCount > 0 <==> NeedsAmountApproval(rows, c, caller)
  {
    var amountApprovals := Filter(rows, AmountVoteIn(c));
    approvalMap := map[];
    amountApprovalCount := 0;
    var i := 0;
    while i < |amountApprovals|
      invariant 0 <= i <= |amountApprovals|
      invariant approvalMap == IndexLast(amountApprovals[..i], VoterOf, ApprovedOf)
      invariant amountApprovalCount == |Filter(amountApprovals[..i], OpenAmountVoteOf(c, caller))|
    {
      var app := amountApprovals[i];
      assert amountApprovals[..i + 1] == amountApprovals[..i] + [app];
      assert app in amountApprovals;
      IndexLastSnoc(amountApprovals[..i], app, VoterOf, ApprovedOf);
      FilterSnoc(amountApprovals[..i], app, OpenAmountVoteOf(c, caller));
      approvalMap := approvalMap[app.approverId := app.approved];
      if app.approverId == caller && !app.approved {
        amountApprovalCount := amountApprovalCount + 1;
      }
      i := i + 1;
    }
    assert amountApprovals[..i] == amountApprovals;
    FilterOfFilter(rows, AmountVoteIn(c), OpenAmountVoteOf(c, caller));
  }

  /** One approval entry per circle user whose status is "active". */
  method ListAmountApprovals(circleUsers: seq<User>, statusMap: map<Id, string>, approvalMap: map<Id, bool>)
    returns (response: seq<ApprovalStatus>)
    ensures response == AmountApprovalViews(circleUsers, statusMap, approvalMap)
  {
    response := [];
    var n := 0;
    while n < |circleUsers|
      invariant 0 <= n <= |circleUsers|
      invariant response == AmountApprovalViews(circleUsers[..n], statusMap, approvalMap)
    {
      var m := circleUsers[n];
      assert circleUsers[..n + 1][..n] == circleUsers[..n];
      if Lookup(statusMap, m.id, "") == StatusActive {
        var approved := Lookup(approvalMap, m.id, false);
        response := response + [ApprovalStatus(m.id, m.name, approved)];
      }
      n := n + 1;
    }
    assert circleUsers[..n] == circleUsers;
  }

  // ---------------------------------------------------------------------
  // What the view says about the tables

  /** `needs_amount_approval`, in GetCircle and in ListCircles alike: the
      caller holds a vote on the circle's proposal that is not yet an
      approval. */
  lemma NeedsAmountApprovalShown(users: seq<User>, circle: Circle, members: seq<CircleMember>,
                                 memberApprovals: seq<MemberApproval>, amountApprovals: seq<AmountApproval>, caller: Id)
    ensures View(users, circle, members, memberApprovals, amountApprovals, caller).needsAmountApproval <==>
      exists a :: a in amountApprovals && a.circleId == circle.id && a.approverId == caller && !a.approved
  {
    NeedsAmountApprovalIff(amountApprovals, circle.id, caller);
  }

  /** `pending_approvals` lists exactly the users on whom the caller holds
      an unapproved vote in the circle. */
  lemma PendingApprovalsAreOpenVotes(rows: seq<MemberApproval>, c: int, approver: int)
    ensures forall x :: x in PendingApprovals(rows, c, approver) <==>
      exists a :: a in rows && a.circleId == c && a.approverUserId == approver && !a.approved && a.pendingUserId == x
  {
    var open := Filter(rows, OpenVoteFor(c, approver));
    var r := PendingApprovals(rows, c, approver);
    forall x | x in r
      ensures exists a ::
        a in rows && a.circleId == c && a.approverUserId == approver && !a.approved && a.pendingUserId == x
    {
      var i :| 0 <= i < |r| && r[i] == x;
      assert open[i] in open;
    }
    forall a | a in rows && a.circleId == c && a.approverUserId == approver && !a.approved
      ensures a.pendingUserId in r
    {
      assert a in open;
      var i :| 0 <= i < |open| && open[i] == a;
      assert r[i] == a.pendingUserId;
    }
  }

  /** With one membership row per (circle, user), the maps built from the
      circle's rows hold, for each member, that member's own role and
      status. */
  lemma MapsHoldOwnRow(members: seq<CircleMember>, c: int, m: CircleMember)
    requires DistinctBy(members, MemberKey)
    requires m in members && m.circleId == c
    ensures var rows := MembersOf(members, c);
      && m.userId in IndexLast(rows, UserOf, RoleOf) && IndexLast(rows, UserOf, RoleOf)[m.userId] == m.role
      && m.userId in IndexLast(rows, UserOf, StatusOf) && IndexLast(rows, UserOf, StatusOf)[m.userId] == m.status
  {
    var rows := MembersOf(members, c);
    assert m in rows;
    forall y | y in rows && UserOf(y) == UserOf(m)
      ensures RoleOf(y) == RoleOf(m) && StatusOf(y) == StatusOf(m)
    {
      DistinctSameKey(members, MemberKey, y, m);
    }
    IndexLastAgrees(rows, UserOf, RoleOf, m);
    IndexLastAgrees(rows, UserOf, StatusOf, m);
  }

  /** `members` lists every user holding a membership row in the circle,
      each with the role and status of that row. */
  lemma MemberViewsMatchRows(users: seq<User>, circle: Circle, members: seq<CircleMember>,
                             memberApprovals: seq<MemberApproval>, amountApprovals: seq<AmountApproval>, caller: Id)
    requires DistinctBy(members, MemberKey)
    ensures var views := View(users, circle, members, memberApprovals, amountApprovals, caller).members;
      forall v :: v in views ==>
        exists m :: m in members && m.circleId == circle.id && m.userId == v.id && m.role == v.role &&
          m.status == v.status
    ensures var views := View(users, circle, members, memberApprovals, amountApprovals, caller).members;
      forall u :: u in users && HasMembership(members, circle.id, u.id) ==>
        exists v :: v in views && v.id == u.id && v.name == u.name && v.email == u.email
  {
    var c := circle.id;
    var circleUsers := CircleUsers(users, members, c);
    var rows := MembersOf(members, c);
    var views := MemberViews(circleUsers, IndexLast(rows, UserOf, RoleOf), IndexLast(rows, UserOf, StatusOf));
    forall v | v in views
      ensures exists m ::
        m in members && m.circleId == c && m.userId == v.id && m.role == v.role && m.status == v.status
    {
      var j :| 0 <= j < |views| && views[j] == v;
      assert circleUsers[j] in circleUsers;
      var m :| m in members && m.circleId == c && m.userId == circleUsers[j].id;
      MapsHoldOwnRow(members, c, m);
    }
    forall u | u in users && HasMembership(members, c, u.id)
      ensures exists v :: v in views && v.id == u.id && v.name == u.name && v.email == u.email
    {
      assert u in circleUsers;
      var j :| 0 <= j < |circleUsers| && circleUsers[j] == u;
      assert views[j] in views;
    }
  }

  /** The entries of the approval list are the active circle users, each
      with the flag the approval map holds for them. */
  lemma {:induction false} AmountApprovalViewsHold(circleUsers: seq<User>, statuses: map<Id, string>,
                                                    approvals: map<Id, bool>)
    ensures forall s :: s in AmountApprovalViews(circleUsers, statuses, approvals) <==>
      exists u :: u in circleUsers && Lookup(statuses, u.id, "") == StatusActive &&
        s == ApprovalStatus(u.id, u.name, Lookup(approvals, u.id, false))
    decreases |circleUsers|
  {
    if circleUsers != [] {
      var prefix := circleUsers[..|circleUsers| - 1];
      AmountApprovalViewsHold(prefix, statuses, approvals);
      assert circleUsers == prefix + [circleUsers[|circleUsers| - 1]];
    }
  }

  /** Every entry of `amount_approvals` names an active member. */
  lemma AmountApprovalsAreActiveMembers(users: seq<User>, circle: Circle, members: seq<CircleMember>,
                                        memberApprovals: seq<MemberApproval>, amountApprovals: seq<AmountApproval>,
                                        caller: Id)
    requires DistinctBy(members, MemberKey)
    ensures var list := View(users, circle, members, memberApprovals, amountApprovals, caller).amountApprovals;
      forall s :: s in list ==> IsActive(members, circle.id, s.userId)
  {
    var c := circle.id;
    var circleUsers := CircleUsers(users, members, c);
    var statuses := IndexLast(MembersOf(members, c), UserOf, StatusOf);
    var approvals := IndexLast(Filter(amountApprovals, AmountVoteIn(c)), VoterOf, ApprovedOf);
    var list := AmountApprovalViews(circleUsers, statuses, approvals);
    AmountApprovalViewsHold(circleUsers, statuses, approvals);
    forall s | s in list
      ensures IsActive(members, c, s.userId)
    {
      var u :| u in circleUsers && Lookup(statuses, u.id, "") == StatusActive &&
        s == ApprovalStatus(u.id, u.name, Lookup(approvals, u.id, false));
      var m :| m in members && m.circleId == c && m.userId == u.id;
      MapsHoldOwnRow(members, c, m);
    }
  }

  /** Every active member who is a user has an entry in `amount_approvals`. */
  lemma ActiveMembersHaveAmountApprovals(users: seq<User>, circle: Circle, members: seq<CircleMember>,
                                         memberApprovals: seq<MemberApproval>, amountApprovals: seq<AmountApproval>,
                                         caller: Id)
    requires DistinctBy(members, MemberKey)
    ensures var list := View(users, circle, members, memberApprovals, amountApprovals, caller).amountApprovals;
      forall u :: u in users && IsActive(members, circle.id, u.id) ==>
        exists s :: s in list && s.userId == u.id && s.userName == u.name
  {
    var c := circle.id;
    var circleUsers := CircleUsers(users, members, c);
    var statuses := IndexLast(MembersOf(members, c), UserOf, StatusOf);
    var approvals := IndexLast(Filter(amountApprovals, AmountVoteIn(c)), VoterOf, ApprovedOf);
    var list := AmountApprovalViews(circleUsers, statuses, approvals);
    AmountApprovalViewsHold(circleUsers, statuses, approvals);
    forall u | u in users && IsActive(members, c, u.id)
      ensures exists s :: s in list && s.userId == u.id && s.userName == u.name
    {
      var m :| m in members && m.circleId == c && m.userId == u.id && m.status == StatusActive;
      MapsHoldOwnRow(members, c, m);
      assert u in circleUsers;
      assert ApprovalStatus(u.id, u.name, Lookup(approvals, u.id, false)) in list;
    }
  }

  /** With one vote per (circle, approver), an entry of `amount_approvals`
      is marked approved exactly when that member's vote on the circle's
      proposal is an approval. */
  lemma ApprovalFlagsMatchVotes(users: seq<User>, circle: Circle, members: seq<CircleMember>,
                                memberApprovals: seq<MemberApproval>, amountApprovals: seq<AmountApproval>, caller: Id)
    requires DistinctBy(amountApprovals, VoterKey)
    ensures var list := View(users, circle, members, memberApprovals, amountApprovals, caller).amountApprovals;
      forall s :: s in list ==>
        (s.approved <==> exists a :: a in amountApprovals && a.circleId == circle.id && a.approverId == s.userId && a.approved)
  {
    var c := circle.id;
    var circleUsers := CircleUsers(users, members, c);
    var statuses := IndexLast(MembersOf(members, c), UserOf, StatusOf);
    var votes := Filter(amountApprovals, AmountVoteIn(c));
    var approvals := IndexLast(votes, VoterOf, ApprovedOf);
    var list := AmountApprovalViews(circleUsers, statuses, approvals);
    AmountApprovalViewsHold(circleUsers, statuses, approvals);
    forall s | s in list
      ensures s.approved <==> exists a :: a in amountApprovals && a.circleId == c && a.approverId == s.userId && a.approved
    {
      var u :| u in circleUsers && Lookup(statuses, u.id, "") == StatusActive &&
        s == ApprovalStatus(u.id, u.name, Lookup(approvals, u.id, false));
      if u.id in approvals {
        var x :| x in votes && VoterOf(x) == u.id;
        forall y | y in votes && VoterOf(y) == VoterOf(x)
          ensures ApprovedOf(y) == ApprovedOf(x)
        {
          DistinctSameKey(amountApprovals, VoterKey, y, x);
        }
        IndexLastAgrees(votes, VoterOf, ApprovedOf, x);
        forall a | a in amountApprovals && a.circleId == c && a.approverId == u.id
          ensures a == x
        {
          DistinctSameKey(amountApprovals, VoterKey, a, x);
        }
      } else {
        forall a | a in amountApprovals && a.circleId == c && a.approverId == u.id
          ensures a in votes
        {
        }
      }
    }
  }
}
