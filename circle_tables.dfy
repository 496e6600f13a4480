/** The SQL statements the circle handlers (internal/handlers/circle.go)
    issue, as functions on table values, and the invariant that every
    handler keeps across the circles, circle_members, member_approvals and
    amount_approvals tables. */
module CircleTables {
  import opened Common
  import opened CircleModels

  // ---------------------------------------------------------------------
  // WHERE clauses

  function InCircle(c: int): CircleMember -> bool
  {
    (m: CircleMember) => m.circleId == c
  }

  function ActiveInCircle(c: int): CircleMember -> bool
  {
    (m: CircleMember) => m.circleId == c && m.status == StatusActive
  }

  function MembershipOf(c: int, u: int): CircleMember -> bool
  {
    (m: CircleMember) => m.circleId == c && m.userId == u
  }

  function VoteOnUser(c: int, u: int): MemberApproval -> bool
  {
    (a: MemberApproval) => a.circleId == c && a.pendingUserId == u
  }

  function ApprovedVoteOnUser(c: int, u: int): MemberApproval -> bool
  {
    (a: MemberApproval) => a.circleId == c && a.pendingUserId == u && a.approved
  }

  function VoteBy(c: int, u: int, approver: int): MemberApproval -> bool
  {
    (a: MemberApproval) => a.circleId == c && a.pendingUserId == u && a.approverUserId == approver
  }

  function AmountVoteIn(c: int): AmountApproval -> bool
  {
    (a: AmountApproval) => a.circleId == c
  }

  function ApprovedAmountVoteIn(c: int): AmountApproval -> bool
  {
    (a: AmountApproval) => a.circleId == c && a.approved
  }

  function OpenAmountVoteOf(c: int, u: int): AmountApproval -> bool
  {
    (a: AmountApproval) => a.circleId == c && a.approverId == u && !a.approved
  }

  function AmountVoteNotIn(c: int): AmountApproval -> bool
  {
    (a: AmountApproval) => a.circleId != c
  }

  // ---------------------------------------------------------------------
  // circle_members

  /** `Where("circle_id = ?", c).Find(...)`. */
  function MembersOf(rows: seq<CircleMember>, c: int): (r: seq<CircleMember>)
    ensures forall m {:trigger m in r} :: m in r <==> m in rows && m.circleId == c
  {
    Filter(rows, InCircle(c))
  }

  /** `Where("circle_id = ? AND status = ?", c, "active").Find(...)`. */
  function ActiveMembersOf(rows: seq<CircleMember>, c: int): (r: seq<CircleMember>)
    ensures forall m {:trigger m in r} :: m in r <==> m in rows && m.circleId == c && m.status == StatusActive
  {
    Filter(rows, ActiveInCircle(c))
  }

  predicate HasMembership(rows: seq<CircleMember>, c: int, u: int)
  {
    exists m :: m in rows && m.circleId == c && m.userId == u
  }

  predicate IsAdmin(rows: seq<CircleMember>, c: int, u: int)
  {
    exists m :: m in rows && m.circleId == c && m.userId == u && m.role == RoleAdmin
  }

  predicate IsActive(rows: seq<CircleMember>, c: int, u: int)
  {
    exists m :: m in rows && m.circleId == c && m.userId == u && m.status == StatusActive
  }

  /** `Update("status", "active")` on the (circle, user) membership rows. */
  function Activate(rows: seq<CircleMember>, c: int, u: int): (r: seq<CircleMember>)
    ensures |r| == |rows|
    ensures forall i :: 0 <= i < |rows| ==>
      r[i] == if rows[i].circleId == c && rows[i].userId == u then rows[i].(status := StatusActive) else rows[i]
  {
    UpdateWhere(rows, MembershipOf(c, u), (m: CircleMember) => m.(status := StatusActive))
  }

  // ---------------------------------------------------------------------
  // member_approvals

  /** The votes AddMember inserts for `invitee`: one per active member, in
      the order the query returned them, pre-approved for the inviter. */
  function InviteVotes(active: seq<CircleMember>, c: Id, invitee: Id, inviter: Id): (r: seq<MemberApproval>)
    ensures |r| == |active|
    ensures forall i :: 0 <= i < |r| ==>
      r[i].circleId == c && r[i].pendingUserId == invitee && r[i].approverUserId == active[i].userId
    ensures forall i :: 0 <= i < |r| ==> (r[i].approved <==> active[i].userId == inviter)
  {
    seq(|active|, i requires 0 <= i < |active| =>
      MemberApproval(c, invitee, active[i].userId, active[i].userId == inviter))
  }

  /** The count comparison of checkApprovalCompletion: at least one vote on
      `u` exists, and as many are approved as exist. */
  predicate ApprovalComplete(rows: seq<MemberApproval>, c: int, u: int)
  {
    var total := |Filter(rows, VoteOnUser(c, u))|;
    total > 0 && total == |Filter(rows, ApprovedVoteOnUser(c, u))|
  }

  /** The counts agree exactly when `u` has a vote and every vote on `u` is
      an approval. */
  lemma ApprovalCompleteIff(rows: seq<MemberApproval>, c: int, u: int)
    ensures ApprovalComplete(rows, c, u) <==>
      (exists a :: a in rows && a.circleId == c && a.pendingUserId == u) &&
      (forall a :: a in rows && a.circleId == c && a.pendingUserId == u ==> a.approved)
  {
    var all := Filter(rows, VoteOnUser(c, u));
    NarrowerFilterSameSize(rows, VoteOnUser(c, u), ApprovedVoteOnUser(c, u));
    if exists a :: a in rows && a.circleId == c && a.pendingUserId == u {
      var a :| a in rows && a.circleId == c && a.pendingUserId == u;
      assert a in all;
    }
    if |all| > 0 {
      assert all[0] in all;
    }
  }

  /** `Update("approved", true)` on the caller's vote(s) about `u`. */
  function ApproveVotes(rows: seq<MemberApproval>, c: int, u: int, approver: int): (r: seq<MemberApproval>)
    ensures |r| == |rows|
    ensures forall i :: 0 <= i < |rows| ==>
      r[i] == if VoteBy(c, u, approver)(rows[i]) then rows[i].(approved := true) else rows[i]
  {
    UpdateWhere(rows, VoteBy(c, u, approver), (a: MemberApproval) => a.(approved := true))
  }

  // ---------------------------------------------------------------------
  // amount_approvals

  /** The votes ProposeAmount inserts: one per active member, all carrying
      the proposal, pre-approved for the proposer. */
  function ProposalVotes(active: seq<CircleMember>, c: Id, proposer: Id, amount: Amount): (r: seq<AmountApproval>)
    ensures |r| == |active|
    ensures forall i :: 0 <= i < |r| ==>
      r[i].circleId == c && r[i].proposerId == proposer && r[i].proposedAmount == amount &&
      r[i].approverId == active[i].userId
    ensures forall i :: 0 <= i < |r| ==> (r[i].approved <==> active[i].userId == proposer)
  {
    seq(|active|, i requires 0 <= i < |active| =>
      AmountApproval(c, proposer, amount, active[i].userId, active[i].userId == proposer))
  }

  /** The count comparison of ApproveAmountChange: the circle has votes and
      all of them are approvals. */
  predicate AmountConsensus(rows: seq<AmountApproval>, c: int)
  {
    var total := |Filter(rows, AmountVoteIn(c))|;
    total > 0 && total == |Filter(rows, ApprovedAmountVoteIn(c))|
  }

  lemma AmountConsensusIff(rows: seq<AmountApproval>, c: int)
    ensures AmountConsensus(rows, c) <==>
      (exists a :: a in rows && a.circleId == c) &&
      (forall a :: a in rows && a.circleId == c ==> a.approved)
  {
    var all := Filter(rows, AmountVoteIn(c));
    NarrowerFilterSameSize(rows, AmountVoteIn(c), ApprovedAmountVoteIn(c));
    if exists a :: a in rows && a.circleId == c {
      var a :| a in rows && a.circleId == c;
      assert a in all;
    }
    if |all| > 0 {
      assert all[0] in all;
    }
  }

  /** RowsAffected of ApproveMember's update is positive: the approver
      holds a vote on the pending user in this circle. */
  predicate HasVoteBy(rows: seq<MemberApproval>, c: int, u: int, approver: int)
  {
    |Filter(rows, VoteBy(c, u, approver))| > 0
  }

  lemma HasVoteByIff(rows: seq<MemberApproval>, c: int, u: int, approver: int)
    ensures HasVoteBy(rows, c, u, approver) <==>
      exists a :: a in rows && a.circleId == c && a.pendingUserId == u && a.approverUserId == approver
  {
    var mine := Filter(rows, VoteBy(c, u, approver));
    if exists a :: a in rows && a.circleId == c && a.pendingUserId == u && a.approverUserId == approver {
      var a :| a in rows && a.circleId == c && a.pendingUserId == u && a.approverUserId == approver;
      assert a in mine;
    }
    if |mine| > 0 {
      assert mine[0] in mine;
    }
  }

  /** RowsAffected of ApproveAmountChange's update is positive: the caller
      holds a vote on this circle that is not yet an approval. The same
      rule gives `needs_amount_approval` in GetCircle and ListCircles. */
  predicate NeedsAmountApproval(rows: seq<AmountApproval>, c: int, u: int)
  {
    |Filter(rows, OpenAmountVoteOf(c, u))| > 0
  }

  lemma NeedsAmountApprovalIff(rows: seq<AmountApproval>, c: int, u: int)
    ensures NeedsAmountApproval(rows, c, u) <==>
      exists a :: a in rows && a.circleId == c && a.approverId == u && !a.approved
  {
    var open := Filter(rows, OpenAmountVoteOf(c, u));
    if exists a :: a in rows && a.circleId == c && a.approverId == u && !a.approved {
      var a :| a in rows && a.circleId == c && a.approverId == u && !a.approved;
      assert a in open;
    }
    if |open| > 0 {
      assert open[0] in open;
    }
  }

  /** `Update("approved", true)` on the caller's unapproved vote(s). */
  function ApproveOpenVotes(rows: seq<AmountApproval>, c: int, u: int): (r: seq<AmountApproval>)
    ensures |r| == |rows|
    ensures forall i :: 0 <= i < |rows| ==>
      r[i] == if OpenAmountVoteOf(c, u)(rows[i]) then rows[i].(approved := true) else rows[i]
  {
    UpdateWhere(rows, OpenAmountVoteOf(c, u), (a: AmountApproval) => a.(approved := true))
  }

  /** `Unscoped().Where("circle_id = ?", c).Delete(...)`. */
  function DeleteVotesOf(rows: seq<AmountApproval>, c: int): (r: seq<AmountApproval>)
    ensures forall a {:trigger a in r} :: a in r <==> a in rows && a.circleId != c
  {
    Filter(rows, AmountVoteNotIn(c))
  }

  /** `Where("circle_id = ?", c).First(&approval)`: the vote with the
      smallest key, that is the earliest row. */
  function FirstVoteOf(rows: seq<AmountApproval>, c: int): (r: Option<AmountApproval>)
    ensures r.Some? ==> r.value in rows && r.value.circleId == c
    ensures r.None? ==> forall a :: a in rows ==> a.circleId != c
  {
    if rows == [] then None
    else if rows[0].circleId == c then Some(rows[0])
    else FirstVoteOf(rows[1..], c)
  }

  /** An open amount vote belongs to a stored circle. */
  lemma OpenVoteNamesStoredCircle(
    circles: map<Id, Circle>, next: nat, members: seq<CircleMember>,
    memberApprovals: seq<MemberApproval>, amountApprovals: seq<AmountApproval>, c: int, u: int)
    requires TablesConsistent(circles, next, members, memberApprovals, amountApprovals)
    requires NeedsAmountApproval(amountApprovals, c, u)
    ensures c in circles
  {
    NeedsAmountApprovalIff(amountApprovals, c, u);
  }

  /** Every vote of a circle carries the circle's live proposal, so the
      first one does too. */
  lemma FirstVoteCarriesProposal(
    circles: map<Id, Circle>, next: nat, members: seq<CircleMember>,
    memberApprovals: seq<MemberApproval>, amountApprovals: seq<AmountApproval>, c: int)
    requires TablesConsistent(circles, next, members, memberApprovals, amountApprovals)
    requires AmountConsensus(amountApprovals, c)
    ensures c in circles
    ensures FirstVoteOf(amountApprovals, c).Some?
    ensures FirstVoteOf(amountApprovals, c).value.proposedAmount == circles[c].proposedAmount
  {
    AmountConsensusIff(amountApprovals, c);
  }

  // ---------------------------------------------------------------------
  // Uniqueness

  /** No two rows of `rows` share a key. */
  ghost predicate DistinctBy<T, K>(rows: seq<T>, key: T -> K)
  {
    forall i, j :: 0 <= i < j < |rows| ==> key(rows[i]) != key(rows[j])
  }

  /** In a table without duplicate keys, a key names at most one row. */
  lemma DistinctSameKey<T, K>(rows: seq<T>, key: T -> K, x: T, y: T)
    requires DistinctBy(rows, key)
    requires x in rows && y in rows && key(x) == key(y)
    ensures x == y
  {
    var i :| 0 <= i < |rows| && rows[i] == x;
    var j :| 0 <= j < |rows| && rows[j] == y;
    if i < j {
      assert key(rows[i]) != key(rows[j]);
    } else if j < i {
      assert key(rows[j]) != key(rows[i]);
    }
  }

  function MemberKey(m: CircleMember): (Id, Id)
  {
    (m.circleId, m.userId)
  }

  function VoterKey(a: AmountApproval): (Id, Id)
  {
    (a.circleId, a.approverId)
  }

  lemma {:induction false} FilterKeepsDistinct<T(!new), K>(rows: seq<T>, p: T -> bool, key: T -> K)
    requires DistinctBy(rows, key)
    ensures DistinctBy(Filter(rows, p), key)
  {
    if rows != [] {
      var tail := Filter(rows[1..], p);
      FilterKeepsDistinct(rows[1..], p, key);
      if p(rows[0]) {
        forall x | x in tail
          ensures key(rows[0]) != key(x)
        {
          var j :| 0 <= j < |rows[1..]| && rows[1..][j] == x;
          assert rows[j + 1] == x;
        }
        var r := [rows[0]] + tail;
        forall i, j | 0 <= i < j < |r|
          ensures key(r[i]) != key(r[j])
        {
          if i == 0 {
            assert r[j] in tail;
          } else {
            assert r[i] == tail[i - 1] && r[j] == tail[j - 1];
          }
        }
      } else {
        assert Filter(rows, p) == tail;
      }
    }
  }

  lemma UpdateKeepsDistinct<T, K>(rows: seq<T>, p: T -> bool, f: T -> T, key: T -> K)
    requires DistinctBy(rows, key)
    requires forall x :: key(f(x)) == key(x)
    ensures DistinctBy(UpdateWhere(rows, p, f), key)
  {
    var r := UpdateWhere(rows, p, f);
    forall i, j | 0 <= i < j < |r|
      ensures key(r[i]) != key(r[j])
    {
      assert key(r[i]) == key(rows[i]) && key(r[j]) == key(rows[j]);
    }
  }

  /** The active members of one circle have pairwise different user ids
      when the membership table has no duplicate (circle, user) pair. */
  lemma ActiveMembersDistinctUsers(rows: seq<CircleMember>, c: int)
    requires DistinctBy(rows, MemberKey)
    ensures forall i, j :: 0 <= i < j < |ActiveMembersOf(rows, c)| ==>
      ActiveMembersOf(rows, c)[i].userId != ActiveMembersOf(rows, c)[j].userId
  {
    var active := ActiveMembersOf(rows, c);
    FilterKeepsDistinct(rows, ActiveInCircle(c), MemberKey);
    forall i, j | 0 <= i < j < |active|
      ensures active[i].userId != active[j].userId
    {
      assert active[i] in active && active[j] in active;
      assert MemberKey(active[i]) != MemberKey(active[j]);
    }
  }

  // ---------------------------------------------------------------------
  // The invariant of the circle tables

  /** What every circle handler preserves:
      - each circle is stored under its own id, below the next serial key,
        and its creator holds an active admin membership row;
      - every membership row belongs to a stored circle, and no user holds
        two rows in one circle;
      - every member vote concerns a user who has a membership row;
      - every amount vote belongs to a stored circle whose live proposal
        (non-zero `proposed_amount`) it carries; no approver has two votes
        in one circle; and a live proposal always has votes. */
  ghost predicate TablesConsistent(
    circles: map<Id, Circle>, nextCircleId: nat, members: seq<CircleMember>,
    memberApprovals: seq<MemberApproval>, amountApprovals: seq<AmountApproval>)
  {
    && (forall id :: id in circles ==> circles[id].id == id && id < nextCircleId)
    && (forall id :: id in circles ==>
          CircleMember(id, circles[id].creatorId, RoleAdmin, StatusActive) in members)
    && (forall m :: m in members ==> m.circleId in circles)
    && DistinctBy(members, MemberKey)
    && (forall a :: a in memberApprovals ==> HasMembership(members, a.circleId, a.pendingUserId))
    && (forall a :: a in amountApprovals ==>
          a.circleId in circles && a.proposedAmount == circles[a.circleId].proposedAmount &&
          a.proposedAmount != 0)
    && DistinctBy(amountApprovals, VoterKey)
    && (forall id :: id in circles && circles[id].proposedAmount != 0 ==>
          exists a :: a in amountApprovals && a.circleId == id)
  }

  lemma EmptyTablesConsistent()
    ensures TablesConsistent(map[], 1, [], [], [])
  {
  }

  // ---------------------------------------------------------------------
  // Each handler's table changes keep the invariant

  /** CreateCircle inserts a circle under the next key and its creator's
      admin row; the new circle then has exactly that one membership. */
  lemma CreateKeepsConsistency(
    circles: map<Id, Circle>, next: nat, members: seq<CircleMember>,
    memberApprovals: seq<MemberApproval>, amountApprovals: seq<AmountApproval>,
    creator: Id, name: string, description: string, amount: Amount)
    requires TablesConsistent(circles, next, members, memberApprovals, amountApprovals)
    ensures next !in circles
    ensures var row := StoredMember(CircleMember(next, creator, RoleAdmin, StatusActive));
      && row == CircleMember(next, creator, RoleAdmin, StatusActive)
      && TablesConsistent(circles[next := NewCircle(next, name, description, amount, creator)], next + 1,
                          members + [row], memberApprovals, amountApprovals)
  {
    var row := StoredMember(CircleMember(next, creator, RoleAdmin, StatusActive));
    var circles' := circles[next := NewCircle(next, name, description, amount, creator)];
    var members' := members + [row];
    forall i, j | 0 <= i < j < |members'|
      ensures MemberKey(members'[i]) != MemberKey(members'[j])
    {
      if j == |members| {
        assert members[i] in members;
      }
    }
    forall a | a in memberApprovals
      ensures HasMembership(members', a.circleId, a.pendingUserId)
    {
      var m :| m in members && m.circleId == a.circleId && m.userId == a.pendingUserId;
      assert m in members';
    }
    forall id | id in circles'
      ensures circles'[id].id == id && id < next + 1
      ensures CircleMember(id, circles'[id].creatorId, RoleAdmin, StatusActive) in members'
    {
      if id != next {
        assert CircleMember(id, circles[id].creatorId, RoleAdmin, StatusActive) in members;
      }
    }
    forall m | m in members'
      ensures m.circleId in circles'
    {
    }
    forall a | a in amountApprovals
      ensures a.circleId in circles' && a.proposedAmount == circles'[a.circleId].proposedAmount
    {
      assert a.circleId in circles;
    }
    forall id | id in circles' && circles'[id].proposedAmount != 0
      ensures exists a :: a in amountApprovals && a.circleId == id
    {
      assert id != next;
    }
  }

  /** A row appended for a circle no earlier row belongs to is that
      circle's only membership. */
  lemma {:induction false} SoleMembershipOfNewCircle(members: seq<CircleMember>, row: CircleMember)
    requires forall m :: m in members ==> m.circleId != row.circleId
    ensures MembersOf(members + [row], row.circleId) == [row]
  {
    FilterNone(members, InCircle(row.circleId));
    FilterAppend(members, [row], InCircle(row.circleId));
    assert Filter([row], InCircle(row.circleId)) == [row];
  }

  /** Inserting a pending membership row leaves the circle's active members
      as they were. */
  lemma PendingInsertKeepsActive(members: seq<CircleMember>, row: CircleMember, c: int)
    requires row.status == StatusPending
    ensures ActiveMembersOf(members + [row], c) == ActiveMembersOf(members, c)
  {
    FilterAppend(members, [row], ActiveInCircle(c));
    assert Filter([row], ActiveInCircle(c)) == [];
  }

  /** AddMember inserts the invitee's pending row and one vote per active
      member; a user who had no membership had no votes either. */
  lemma InviteKeepsConsistency(
    circles: map<Id, Circle>, next: nat, members: seq<CircleMember>,
    memberApprovals: seq<MemberApproval>, amountApprovals: seq<AmountApproval>,
    c: Id, invitee: Id, inviter: Id, role: string)
    requires TablesConsistent(circles, next, members, memberApprovals, amountApprovals)
    requires c in circles && !HasMembership(members, c, invitee)
    ensures TablesConsistent(circles, next, members + [CircleMember(c, invitee, role, StatusPending)],
      memberApprovals + InviteVotes(ActiveMembersOf(members, c), c, invitee, inviter), amountApprovals)
  {
    var row := CircleMember(c, invitee, role, StatusPending);
    var members' := members + [row];
    var votes := InviteVotes(ActiveMembersOf(members, c), c, invitee, inviter);
    assert row in members';
    forall i, j | 0 <= i < j < |members'|
      ensures MemberKey(members'[i]) != MemberKey(members'[j])
    {
      if j == |members| {
        assert members[i] in members;
      }
    }
    forall a | a in memberApprovals + votes
      ensures HasMembership(members', a.circleId, a.pendingUserId)
    {
      if a in memberApprovals {
        var m :| m in members && m.circleId == a.circleId && m.userId == a.pendingUserId;
        assert m in members';
      } else {
        var k :| 0 <= k < |votes| && votes[k] == a;
      }
    }
    forall id | id in circles
      ensures CircleMember(id, circles[id].creatorId, RoleAdmin, StatusActive) in members'
    {
      assert CircleMember(id, circles[id].creatorId, RoleAdmin, StatusActive) in members;
    }
  }

  /** Activating a membership keeps every row's circle, user and role, and
      an active row stays the same row. */
  lemma ActivateKeepsConsistency(
    circles: map<Id, Circle>, next: nat, members: seq<CircleMember>,
    memberApprovals: seq<MemberApproval>, amountApprovals: seq<AmountApproval>, c: int, u: int)
    requires TablesConsistent(circles, next, members, memberApprovals, amountApprovals)
    ensures TablesConsistent(circles, next, Activate(members, c, u), memberApprovals, amountApprovals)
  {
    var members' := Activate(members, c, u);
    UpdateKeepsDistinct(members, MembershipOf(c, u), (m: CircleMember) => m.(status := StatusActive), MemberKey);
    forall m | m in members'
      ensures m.circleId in circles
    {
      var i :| 0 <= i < |members'| && members'[i] == m;
      assert members[i] in members;
    }
    forall a | a in memberApprovals
      ensures HasMembership(members', a.circleId, a.pendingUserId)
    {
      var m :| m in members && m.circleId == a.circleId && m.userId == a.pendingUserId;
      var i :| 0 <= i < |members| && members[i] == m;
      assert members'[i] in members';
    }
    forall id | id in circles
      ensures CircleMember(id, circles[id].creatorId, RoleAdmin, StatusActive) in members'
    {
      var m := CircleMember(id, circles[id].creatorId, RoleAdmin, StatusActive);
      var i :| 0 <= i < |members| && members[i] == m;
      assert members'[i] == m;
    }
  }

  /** When a user's votes are complete, activating their membership makes
      them an active member: the votes exist only for users who hold a row. */
  lemma CompleteVotesActivate(members: seq<CircleMember>, memberApprovals: seq<MemberApproval>, c: int, u: int)
    requires forall a :: a in memberApprovals ==> HasMembership(members, a.circleId, a.pendingUserId)
    requires ApprovalComplete(memberApprovals, c, u)
    ensures IsActive(Activate(members, c, u), c, u)
  {
    ApprovalCompleteIff(memberApprovals, c, u);
    var a :| a in memberApprovals && a.circleId == c && a.pendingUserId == u;
    var m :| m in members && m.circleId == c && m.userId == u;
    var i :| 0 <= i < |members| && members[i] == m;
    var activated := Activate(members, c, u);
    assert activated[i] in activated;
  }

  /** Approving member votes changes only their `approved` flag. */
  lemma ApproveVotesKeepsConsistency(
    circles: map<Id, Circle>, next: nat, members: seq<CircleMember>,
    memberApprovals: seq<MemberApproval>, amountApprovals: seq<AmountApproval>,
    c: int, u: int, approver: int)
    requires TablesConsistent(circles, next, members, memberApprovals, amountApprovals)
    ensures TablesConsistent(circles, next, members, ApproveVotes(memberApprovals, c, u, approver), amountApprovals)
  {
    var approvals' := ApproveVotes(memberApprovals, c, u, approver);
    forall a | a in approvals'
      ensures HasMembership(members, a.circleId, a.pendingUserId)
    {
      var i :| 0 <= i < |approvals'| && approvals'[i] == a;
      assert memberApprovals[i] in memberApprovals;
    }
  }

  /** Every membership row belongs to a stored circle, so an admin's
      circle exists. */
  lemma MembershipNamesStoredCircle(
    circles: map<Id, Circle>, next: nat, members: seq<CircleMember>,
    memberApprovals: seq<MemberApproval>, amountApprovals: seq<AmountApproval>, c: int, u: int)
    requires TablesConsistent(circles, next, members, memberApprovals, amountApprovals)
    requires HasMembership(members, c, u)
    ensures c in circles
  {
  }

  /** ProposeAmount stores the proposal on the circle and replaces its votes
      by one per active member. The creator is always among them, so the
      live proposal has votes. */
  lemma ProposeKeepsConsistency(
    circles: map<Id, Circle>, next: nat, members: seq<CircleMember>,
    memberApprovals: seq<MemberApproval>, amountApprovals: seq<AmountApproval>,
    c: Id, proposer: Id, amount: Amount)
    requires TablesConsistent(circles, next, members, memberApprovals, amountApprovals)
    requires c in circles && amount != 0
    ensures TablesConsistent(circles[c := circles[c].(proposedAmount := amount)], next, members, memberApprovals,
      DeleteVotesOf(amountApprovals, c) + ProposalVotes(ActiveMembersOf(members, c), c, proposer, amount))
  {
    var circles' := circles[c := circles[c].(proposedAmount := amount)];
    var kept := DeleteVotesOf(amountApprovals, c);
    var active := ActiveMembersOf(members, c);
    var votes := ProposalVotes(active, c, proposer, amount);
    var rows := kept + votes;
    forall a: AmountApproval | a in rows
      ensures a.circleId in circles' && a.proposedAmount == circles'[a.circleId].proposedAmount && a.proposedAmount != 0
    {
      if a !in kept {
        var k :| 0 <= k < |votes| && votes[k] == a;
      }
    }
    FilterKeepsDistinct(amountApprovals, AmountVoteNotIn(c), VoterKey);
    ActiveMembersDistinctUsers(members, c);
    forall i, j | 0 <= i < j < |rows|
      ensures VoterKey(rows[i]) != VoterKey(rows[j])
    {
      if j < |kept| {
        assert rows[i] == kept[i] && rows[j] == kept[j];
      } else if i < |kept| {
        assert rows[i] in kept;
        assert rows[j] == votes[j - |kept|];
      } else {
        assert rows[i] == votes[i - |kept|] && rows[j] == votes[j - |kept|];
      }
    }
    var creatorRow := CircleMember(c, circles[c].creatorId, RoleAdmin, StatusActive);
    assert creatorRow in active;
    assert votes[0] in rows;
    forall id | id in circles' && circles'[id].proposedAmount != 0
      ensures exists a :: a in rows && a.circleId == id
    {
      if id != c {
        var a :| a in amountApprovals && a.circleId == id;
        assert a in kept;
        assert a in rows;
      }
    }
  }

  /** Approving amount votes changes only their `approved` flag. */
  lemma ApproveOpenVotesKeepsConsistency(
    circles: map<Id, Circle>, next: nat, members: seq<CircleMember>,
    memberApprovals: seq<MemberApproval>, amountApprovals: seq<AmountApproval>, c: int, u: int)
    requires TablesConsistent(circles, next, members, memberApprovals, amountApprovals)
    ensures TablesConsistent(circles, next, members, memberApprovals, ApproveOpenVotes(amountApprovals, c, u))
  {
    var rows := ApproveOpenVotes(amountApprovals, c, u);
    UpdateKeepsDistinct(amountApprovals, OpenAmountVoteOf(c, u), (a: AmountApproval) => a.(approved := true), VoterKey);
    forall a: AmountApproval | a in rows
      ensures a.circleId in circles && a.proposedAmount == circles[a.circleId].proposedAmount && a.proposedAmount != 0
    {
      var i :| 0 <= i < |rows| && rows[i] == a;
      assert amountApprovals[i] in amountApprovals;
    }
    forall id | id in circles && circles[id].proposedAmount != 0
      ensures exists a :: a in rows && a.circleId == id
    {
      var a :| a in amountApprovals && a.circleId == id;
      var i :| 0 <= i < |amountApprovals| && amountApprovals[i] == a;
      assert rows[i] in rows;
    }
  }

  /** The commit: the circle takes the proposed amount, the proposal is
      cleared and all of the circle's votes are deleted. */
  lemma CommitKeepsConsistency(
    circles: map<Id, Circle>, next: nat, members: seq<CircleMember>,
    memberApprovals: seq<MemberApproval>, amountApprovals: seq<AmountApproval>, c: Id, amount: Amount)
    requires TablesConsistent(circles, next, members, memberApprovals, amountApprovals)
    requires c in circles
    ensures TablesConsistent(circles[c := circles[c].(amountPerMember := amount, proposedAmount := 0)], next,
      members, memberApprovals, DeleteVotesOf(amountApprovals, c))
  {
    var rows := DeleteVotesOf(amountApprovals, c);
    FilterKeepsDistinct(amountApprovals, AmountVoteNotIn(c), VoterKey);
    forall id | id in circles && id != c && circles[id].proposedAmount != 0
      ensures exists a :: a in rows && a.circleId == id
    {
      var a :| a in amountApprovals && a.circleId == id;
      assert a in rows;
    }
  }

  // ---------------------------------------------------------------------
  // What the votes decide

  /** Right after AddMember's inserts, the invitee's votes are complete
      exactly when there is an active member and every active member is the
      inviter: a sole active admin admits the invitee at once, and anyone
      else's invite waits for the other members. */
  lemma {:induction false} InviteCompleteIff(
    memberApprovals: seq<MemberApproval>, active: seq<CircleMember>, c: Id, invitee: Id, inviter: Id)
    requires forall a :: a in memberApprovals ==> a.circleId != c || a.pendingUserId != invitee
    ensures ApprovalComplete(memberApprovals + InviteVotes(active, c, invitee, inviter), c, invitee) <==>
      |active| > 0 && forall m :: m in active ==> m.userId == inviter
  {
    var votes := InviteVotes(active, c, invitee, inviter);
    var rows := memberApprovals + votes;
    ApprovalCompleteIff(rows, c, invitee);
    if |active| > 0 {
      assert votes[0] in rows;
    }
    if forall m :: m in active ==> m.userId == inviter {
      forall a | a in rows && a.circleId == c && a.pendingUserId == invitee
        ensures a.approved
      {
        var k :| 0 <= k < |votes| && votes[k] == a;
        assert active[k] in active;
      }
    }
    if ApprovalComplete(rows, c, invitee) {
      forall m | m in active
        ensures m.userId == inviter
      {
        var k :| 0 <= k < |active| && active[k] == m;
        assert votes[k] in rows;
      }
    }
  }

  /** The invitee's fresh pending row is their only row in the circle, so
      they are active afterwards exactly when their row was activated. */
  lemma InvitedRowIsOnlyOne(members: seq<CircleMember>, row: CircleMember, c: Id, u: Id)
    requires !HasMembership(members, c, u)
    requires row.circleId == c && row.userId == u && row.status == StatusPending
    ensures !IsActive(members + [row], c, u)
    ensures IsActive(Activate(members + [row], c, u), c, u)
  {
    var rows := members + [row];
    var activated := Activate(rows, c, u);
    assert activated[|members|] in activated;
  }

  /** AddMember's outcome for the invitee: after the pending row, the votes
      and the completion check, the invitee is an active member exactly when
      every active member of the circle is the inviter (the creator's admin
      row guarantees there is at least one). */
  lemma InviteActivationIff(
    circles: map<Id, Circle>, next: nat, members: seq<CircleMember>,
    memberApprovals: seq<MemberApproval>, amountApprovals: seq<AmountApproval>,
    c: Id, invitee: Id, inviter: Id, role: string)
    requires TablesConsistent(circles, next, members, memberApprovals, amountApprovals)
    requires c in circles && !HasMembership(members, c, invitee)
    ensures var row := CircleMember(c, invitee, role, StatusPending);
      var votes := memberApprovals + InviteVotes(ActiveMembersOf(members, c), c, invitee, inviter);
      var after := if ApprovalComplete(votes, c, invitee) then Activate(members + [row], c, invitee) else members + [row];
      IsActive(after, c, invitee) <==> forall m :: m in ActiveMembersOf(members, c) ==> m.userId == inviter
  {
    var row := CircleMember(c, invitee, role, StatusPending);
    var active := ActiveMembersOf(members, c);
    forall a | a in memberApprovals
      ensures a.circleId != c || a.pendingUserId != invitee
    {
      assert HasMembership(members, a.circleId, a.pendingUserId);
    }
    assert CircleMember(c, circles[c].creatorId, RoleAdmin, StatusActive) in active;
    InviteCompleteIff(memberApprovals, active, c, invitee, inviter);
    InvitedRowIsOnlyOne(members, row, c, invitee);
  }

  /** When every active member is the proposer, the proposal's votes leave
      nobody an approval to give: every vote is already approved. */
  lemma SoleProposerLeavesNothingToApprove(
    amountApprovals: seq<AmountApproval>, active: seq<CircleMember>, c: Id, proposer: Id, amount: Amount, u: int)
    requires forall m :: m in active ==> m.userId == proposer
    ensures !NeedsAmountApproval(DeleteVotesOf(amountApprovals, c) + ProposalVotes(active, c, proposer, amount), c, u)
  {
    var kept := DeleteVotesOf(amountApprovals, c);
    var votes := ProposalVotes(active, c, proposer, amount);
    NeedsAmountApprovalIff(kept + votes, c, u);
    forall a: AmountApproval | a in kept + votes && a.circleId == c
      ensures a.approved
    {
      var k :| 0 <= k < |votes| && votes[k] == a;
      assert active[k] in active;
    }
  }

  /** Once the committed circle's votes are deleted, nobody has a vote on it
      to approve. */
  lemma DeletedVotesNeedNothing(amountApprovals: seq<AmountApproval>, c: int, u: int)
    ensures !NeedsAmountApproval(DeleteVotesOf(amountApprovals, c), c, u)
    ensures !AmountConsensus(DeleteVotesOf(amountApprovals, c), c)
  {
    NeedsAmountApprovalIff(DeleteVotesOf(amountApprovals, c), c, u);
    AmountConsensusIff(DeleteVotesOf(amountApprovals, c), c);
  }
}
