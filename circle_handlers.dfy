/** The state-changing circle handlers of internal/handlers/circle.go, one
    method per handler, each a step-by-step update of the shared database.
    Every method keeps `Consistent` (the table invariant) and says, for
    each failure branch, which error it answers and that nothing changed. */
module CircleHandlers {
  import opened Common
  import opened CircleModels
  import opened CircleTables
  import opened Store

  /** The handlers' failure branches. */
  datatype HandlerError =
    | InvalidRequest           // request body fails binding
    | CircleNotFound
    | NotCircleAdmin
    | UserNotFound
    | AlreadyMember
    | ApprovalNotFound
    | NotActiveMember
    | NoPendingAmountApproval  // the amount transaction's own error

  /** The HTTP status each failure is answered with. */
  function HttpStatus(e: HandlerError): int
  {
    match e
    case InvalidRequest => 400
    case CircleNotFound => 404
    case NotCircleAdmin => 403
    case UserNotFound => 404
    case AlreadyMember => 409
    case ApprovalNotFound => 404
    case NotActiveMember => 403
    case NoPendingAmountApproval => 500
  }

  ghost predicate Consistent(db: Database)
    reads db
  {
    TablesConsistent(db.circles, db.nextCircleId, db.members, db.memberApprovals, db.amountApprovals)
  }

  /** Nothing outside the four circle tables and the circle key changed. */
  twostate predicate OtherTablesUnchanged(db: Database)
    reads db
  {
    && db.users == old(db.users)
    && db.contributions == old(db.contributions)
    && db.resetTokens == old(db.resetTokens)
    && db.nextContributionId == old(db.nextContributionId)
    && db.nextTokenId == old(db.nextTokenId)
  }

  /** CreateCircle: the circle is stored under a fresh key with no
      proposal, and its creator becomes its one member, an active admin. */
  method CreateCircle(db: Database, caller: Id, name: string, description: string, amount: Amount)
    returns (r: Result<Id, HandlerError>)
    requires Consistent(db)
    modifies db
    ensures Consistent(db)
    ensures name == "" || amount == 0 ==> r == Failure(InvalidRequest) && unchanged(db)
    ensures name != "" && amount != 0 ==>
      && r == Success(old(db.nextCircleId))
      && r.value !in old(db.circles)
      && db.circles == old(db.circles)[r.value := Circle(r.value, name, description, amount, 0, caller)]
      && db.members == old(db.members) + [CircleMember(r.value, caller, RoleAdmin, StatusActive)]
      && MembersOf(db.members, r.value) == [CircleMember(r.value, caller, RoleAdmin, StatusActive)]
      && db.nextCircleId == old(db.nextCircleId) + 1
      && db.memberApprovals == old(db.memberApprovals)
      && db.amountApprovals == old(db.amountApprovals)
      && OtherTablesUnchanged(db)
  {
    if name == "" || amount == 0 {
      return Failure(InvalidRequest);
    }
    var id := db.nextCircleId;
    var row := CircleMember(id, caller, RoleAdmin, StatusActive);
    CreateKeepsConsistency(db.circles, db.nextCircleId, db.members, db.memberApprovals, db.amountApprovals,
      caller, name, description, amount);
    SoleMembershipOfNewCircle(db.members, row);
    db.circles := db.circles[id := NewCircle(id, name, description, amount, caller)];
    db.nextCircleId := id + 1;
    db.members := db.members + [StoredMember(row)];
    r := Success(id);
  }

  /** checkApprovalCompletion: when the pending user's votes all exist and
      are approvals, their membership becomes active. */
  method CheckApprovalCompletion(db: Database, c: Id, u: Id)
    requires Consistent(db)
    modifies db
    ensures Consistent(db)
    ensures db.members ==
      if ApprovalComplete(old(db.memberApprovals), c, u) then Activate(old(db.members), c, u) else old(db.members)
    ensures ApprovalComplete(old(db.memberApprovals), c, u) ==> IsActive(db.members, c, u)
    ensures db.circles == old(db.circles) && db.nextCircleId == old(db.nextCircleId)
    ensures db.memberApprovals == old(db.memberApprovals) && db.amountApprovals == old(db.amountApprovals)
    ensures OtherTablesUnchanged(db)
  {
    var totalRequired := |Filter(db.memberApprovals, VoteOnUser(c, u))|;
    var totalApproved := |Filter(db.memberApprovals, ApprovedVoteOnUser(c, u))|;
    if totalRequired > 0 && totalRequired == totalApproved {
      CompleteVotesActivate(db.members, db.memberApprovals, c, u);
      ActivateKeepsConsistency(db.circles, db.nextCircleId, db.members, db.memberApprovals, db.amountApprovals, c, u);
      db.members := Activate(db.members, c, u);
    }
  }

  /** AddMember: an admin invites an existing user who has no membership
      yet; the invitation itself is `Invite`. */
  method AddMember(db: Database, c: Id, caller: Id, target: Id, role: string)
    returns (r: Result<(), HandlerError>)
    requires Consistent(db)
    modifies db
    ensures Consistent(db)
    ensures target == 0 ==> r == Failure(InvalidRequest)
    ensures target != 0 && c !in old(db.circles) ==> r == Failure(CircleNotFound)
    ensures (target != 0 && c in old(db.circles) && !IsAdmin(old(db.members), c, caller)) ==>
      r == Failure(NotCircleAdmin)
    ensures (target != 0 && c in old(db.circles) && IsAdmin(old(db.members), c, caller) &&
             !UserExists(old(db.users), target)) ==>
      r == Failure(UserNotFound)
    ensures (target != 0 && c in old(db.circles) && IsAdmin(old(db.members), c, caller) &&
             UserExists(old(db.users), target) && HasMembership(old(db.members), c, target)) ==>
      r == Failure(AlreadyMember)
    ensures (target != 0 && c in old(db.circles) && IsAdmin(old(db.members), c, caller) &&
             UserExists(old(db.users), target) && !HasMembership(old(db.members), c, target)) ==>
      r == Success(())
    ensures r.Failure? ==> unchanged(db)
    ensures r.Success? ==>
      Invited(db, c, caller, target, if role == "" then RoleMember else role)
  {
    if target == 0 {
      return Failure(InvalidRequest);
    }
    if c !in db.circles {
      return Failure(CircleNotFound);
    }
    if !IsAdmin(db.members, c, caller) {
      return Failure(NotCircleAdmin);
    }
    if !UserExists(db.users, target) {
      return Failure(UserNotFound);
    }
    if HasMembership(db.members, c, target) {
      return Failure(AlreadyMember);
    }
    var newRole := if role == "" then RoleMember else role;
    Invite(db, c, caller, target, newRole);
    r := Success(());
  }

  /** The state after `target` was invited by `caller` with a non-empty
      role: a pending row for the invitee, one vote per active member (the
      inviter's pre-approved), and the completion check applied; the
      invitee is active exactly when every active member is the inviter. */
  twostate predicate Invited(db: Database, c: Id, caller: Id, target: Id, role: string)
    reads db
  {
    var row := CircleMember(c, target, role, StatusPending);
    && db.memberApprovals ==
         old(db.memberApprovals) + InviteVotes(ActiveMembersOf(old(db.members), c), c, target, caller)
    && db.members ==
         (if ApprovalComplete(db.memberApprovals, c, target)
          then Activate(old(db.members) + [row], c, target) else old(db.members) + [row])
    && (IsActive(db.members, c, target) <==>
          forall m :: m in ActiveMembersOf(old(db.members), c) ==> m.userId == caller)
    && db.circles == old(db.circles) && db.nextCircleId == old(db.nextCircleId)
    && db.amountApprovals == old(db.amountApprovals)
    && OtherTablesUnchanged(db)
  }

  /** AddMember's inserts and completion check, keeping the invariant. */
  method Invite(db: Database, c: Id, caller: Id, target: Id, role: string)
    requires Consistent(db)
    requires c in db.circles && !HasMembership(db.members, c, target) && role != ""
    modifies db
    ensures Consistent(db)
    ensures Invited(db, c, caller, target, role)
  {
    InviteKeepsConsistency(db.circles, db.nextCircleId, db.members, db.memberApprovals, db.amountApprovals,
      c, target, caller, role);
    InviteActivationIff(db.circles, db.nextCircleId, db.members, db.memberApprovals, db.amountApprovals,
      c, target, caller, role);
    InsertInvitation(db, c, caller, target, role);
    CheckApprovalCompletion(db, c, target);
  }

  /** The pending row for the invitee, then one vote per active member in
      a loop, the inviter's pre-approved. */
  method InsertInvitation(db: Database, c: Id, caller: Id, target: Id, role: string)
    requires role != ""
    modifies db
    ensures db.members == old(db.members) + [CircleMember(c, target, role, StatusPending)]
    ensures db.memberApprovals ==
      old(db.memberApprovals) + InviteVotes(ActiveMembersOf(old(db.members), c), c, target, caller)
    ensures db.circles == old(db.circles) && db.nextCircleId == old(db.nextCircleId)
    ensures db.amountApprovals == old(db.amountApprovals)
    ensures OtherTablesUnchanged(db)
  {
    ghost var members0 := db.members;
    ghost var approvals0 := db.memberApprovals;
    var row := StoredMember(CircleMember(c, target, role, StatusPending));
    db.members := db.members + [row];
    var active := ActiveMembersOf(db.members, c);
    PendingInsertKeepsActive(members0, row, c);
    ghost var votes := InviteVotes(active, c, target, caller);
    var i := 0;
    while i < |active|
      invariant 0 <= i <= |active|
      invariant db.memberApprovals == approvals0 + votes[..i]
      invariant db.members == members0 + [row]
      invariant db.circles == old(db.circles) && db.nextCircleId == old(db.nextCircleId)
      invariant db.amountApprovals == old(db.amountApprovals)
      invariant OtherTablesUnchanged(db)
    {
      db.memberApprovals := db.memberApprovals + [MemberApproval(c, target, active[i].userId, active[i].userId == caller)];
      assert votes[..i + 1] == votes[..i] + [votes[i]];
      i := i + 1;
    }
    assert votes[..i] == votes;
  }

  /** ApproveMember: the caller approves their own vote on the pending
      user; without such a vote nothing changes. */
  method ApproveMember(db: Database, c: Id, pendingUser: Id, approver: Id) returns (r: Result<(), HandlerError>)
    requires Consistent(db)
    modifies db
    ensures Consistent(db)
    ensures r.Success? <==>
      exists a :: a in old(db.memberApprovals) && a.circleId == c && a.pendingUserId == pendingUser &&
        a.approverUserId == approver
    ensures r.Failure? ==> r.error == ApprovalNotFound && unchanged(db)
    ensures r.Success? ==>
      && db.memberApprovals == ApproveVotes(old(db.memberApprovals), c, pendingUser, approver)
      && db.members ==
           (if ApprovalComplete(db.memberApprovals, c, pendingUser)
            then Activate(old(db.members), c, pendingUser) else old(db.members))
      && (ApprovalComplete(db.memberApprovals, c, pendingUser) ==> IsActive(db.members, c, pendingUser))
      && db.circles == old(db.circles) && db.nextCircleId == old(db.nextCircleId)
      && db.amountApprovals == old(db.amountApprovals)
      && OtherTablesUnchanged(db)
  {
    HasVoteByIff(db.memberApprovals, c, pendingUser, approver);
    var rowsAffected := |Filter(db.memberApprovals, VoteBy(c, pendingUser, approver))|;
    if rowsAffected == 0 {
      return Failure(ApprovalNotFound);
    }
    ApproveVotesKeepsConsistency(db.circles, db.nextCircleId, db.members, db.memberApprovals, db.amountApprovals,
      c, pendingUser, approver);
    db.memberApprovals := ApproveVotes(db.memberApprovals, c, pendingUser, approver);
    CheckApprovalCompletion(db, c, pendingUser);
    r := Success(());
  }

  /** The contribution row RecordContribution inserts: the circle's current
      amount, stamped with the recording month and time. */
  function ContributionRow(id: Id, c: Id, u: Id, amount: Amount, now: Moment): (row: Contribution)
    ensures row.month.year == now.year && row.month.month == now.month
    ensures row.amount == amount && row.circleId == c && row.userId == u && row.createdAt == now
  {
    Contribution(id, c, u, amount, now, now)
  }

  /** The row as the source builds it: `Month` is never assigned, so the
      column receives Go's zero time whatever the recording date. */
  function ContributionRowAsWritten(id: Id, c: Id, u: Id, amount: Amount, now: Moment): (row: Contribution)
    ensures row.month == ZeroTime
    ensures row.amount == amount && row.circleId == c && row.userId == u && row.createdAt == now
  {
    Contribution(id, c, u, amount, ZeroTime, now)
  }

  /** RecordContribution: any active member of an existing circle records
      one contribution of the circle's current amount. No other condition
      applies: not a live proposal, not an earlier contribution this month. */
  method RecordContribution(db: Database, c: Id, caller: Id, now: Moment) returns (r: Result<Id, HandlerError>)
    requires Consistent(db)
    modifies db
    ensures Consistent(db)
    ensures c !in old(db.circles) ==> r == Failure(CircleNotFound) && unchanged(db)
    ensures c in old(db.circles) && !IsActive(old(db.members), c, caller) ==>
      r == Failure(NotActiveMember) && unchanged(db)
    ensures c in old(db.circles) && IsActive(old(db.members), c, caller) ==>
      && r == Success(old(db.nextContributionId))
      && db.contributions == old(db.contributions) +
           [ContributionRow(r.value, c, caller, old(db.circles)[c].amountPerMember, now)]
      && db.nextContributionId == old(db.nextContributionId) + 1
      && db.circles == old(db.circles) && db.members == old(db.members)
      && db.memberApprovals == old(db.memberApprovals) && db.amountApprovals == old(db.amountApprovals)
      && db.users == old(db.users) && db.resetTokens == old(db.resetTokens)
      && db.nextCircleId == old(db.nextCircleId) && db.nextTokenId == old(db.nextTokenId)
  {
    if c !in db.circles {
      return Failure(CircleNotFound);
    }
    if !IsActive(db.members, c, caller) {
      return Failure(NotActiveMember);
    }
    var id := db.nextContributionId;
    db.contributions := db.contributions + [ContributionRow(id, c, caller, db.circles[c].amountPerMember, now)];
    db.nextContributionId := id + 1;
    r := Success(id);
  }

  /** ProposeAmount: an admin (active or not) stores a proposal of at least
      1 and replaces every earlier vote of the circle by one vote per active
      member, pre-approved for the proposer. A live proposal is overwritten,
      and the amount may equal the current one. */
  method ProposeAmount(db: Database, c: Id, caller: Id, newAmount: Amount) returns (r: Result<(), HandlerError>)
    requires Consistent(db)
    modifies db
    ensures Consistent(db)
    ensures newAmount == 0 ==> r == Failure(InvalidRequest) && unchanged(db)
    ensures newAmount != 0 && !IsAdmin(old(db.members), c, caller) ==> r == Failure(NotCircleAdmin) && unchanged(db)
    ensures newAmount != 0 && IsAdmin(old(db.members), c, caller) ==>
      && r == Success(())
      && c in old(db.circles)
      && db.circles == old(db.circles)[c := old(db.circles)[c].(proposedAmount := newAmount)]
      && db.amountApprovals == DeleteVotesOf(old(db.amountApprovals), c) +
           ProposalVotes(ActiveMembersOf(old(db.members), c), c, caller, newAmount)
      && db.members == old(db.members) && db.memberApprovals == old(db.memberApprovals)
      && db.nextCircleId == old(db.nextCircleId)
      && OtherTablesUnchanged(db)
  {
    if newAmount == 0 {
      return Failure(InvalidRequest);
    }
    if !IsAdmin(db.members, c, caller) {
      return Failure(NotCircleAdmin);
    }
    MembershipNamesStoredCircle(db.circles, db.nextCircleId, db.members, db.memberApprovals, db.amountApprovals,
      c, caller);
    ProposeKeepsConsistency(db.circles, db.nextCircleId, db.members, db.memberApprovals, db.amountApprovals,
      c, caller, newAmount);
    StoreProposal(db, c, caller, newAmount);
    r := Success(());
  }

  /** ProposeAmount's writes: the proposal on the circle row, the deletion
      of the circle's earlier votes, then one vote per active member in a
      loop, the proposer's pre-approved. */
  method StoreProposal(db: Database, c: Id, caller: Id, newAmount: Amount)
    requires c in db.circles
    modifies db
    ensures db.circles == old(db.circles)[c := old(db.circles)[c].(proposedAmount := newAmount)]
    ensures db.amountApprovals == DeleteVotesOf(old(db.amountApprovals), c) +
      ProposalVotes(ActiveMembersOf(old(db.members), c), c, caller, newAmount)
    ensures db.members == old(db.members) && db.memberApprovals == old(db.memberApprovals)
    ensures db.nextCircleId == old(db.nextCircleId)
    ensures OtherTablesUnchanged(db)
  {
    db.circles := db.circles[c := db.circles[c].(proposedAmount := newAmount)];
    db.amountApprovals := DeleteVotesOf(db.amountApprovals, c);
    ghost var kept := db.amountApprovals;
    var active := ActiveMembersOf(db.members, c);
    ghost var votes := ProposalVotes(active, c, caller, newAmount);
    var i := 0;
    while i < |active|
      invariant 0 <= i <= |active|
      invariant db.amountApprovals == kept + votes[..i]
      invariant db.circles == old(db.circles)[c := old(db.circles)[c].(proposedAmount := newAmount)]
      invariant db.members == old(db.members) && db.memberApprovals == old(db.memberApprovals)
      invariant db.nextCircleId == old(db.nextCircleId)
      invariant OtherTablesUnchanged(db)
    {
      db.amountApprovals := db.amountApprovals +
        [AmountApproval(c, caller, newAmount, active[i].userId, active[i].userId == caller)];
      assert votes[..i + 1] == votes[..i] + [votes[i]];
      i := i + 1;
    }
    assert votes[..i] == votes;
  }

  /** ApproveAmountChange, one transaction: the caller approves their open
      vote; if that was the last one, the circle takes the proposed amount,
      the proposal is cleared and the votes are deleted. Without an open
      vote the transaction fails and nothing changes. */
  method ApproveAmountChange(db: Database, c: Id, caller: Id) returns (r: Result<(), HandlerError>)
    requires Consistent(db)
    modifies db
    ensures Consistent(db)
    ensures !NeedsAmountApproval(old(db.amountApprovals), c, caller) ==>
      r == Failure(NoPendingAmountApproval) && unchanged(db)
    ensures NeedsAmountApproval(old(db.amountApprovals), c, caller) ==>
      var approved := ApproveOpenVotes(old(db.amountApprovals), c, caller);
      && r == Success(())
      && c in old(db.circles)
      && (if AmountConsensus(approved, c) then
            && db.circles == old(db.circles)[c := old(db.circles)[c].(
                 amountPerMember := old(db.circles)[c].proposedAmount, proposedAmount := 0)]
            && db.amountApprovals == DeleteVotesOf(approved, c)
          else
            && db.circles == old(db.circles)
            && db.amountApprovals == approved)
      && db.members == old(db.members) && db.memberApprovals == old(db.memberApprovals)
      && db.nextCircleId == old(db.nextCircleId)
      && OtherTablesUnchanged(db)
  {
    var rowsAffected := |Filter(db.amountApprovals, OpenAmountVoteOf(c, caller))|;
    if rowsAffected == 0 {
      return Failure(NoPendingAmountApproval);
    }
    OpenVoteNamesStoredCircle(db.circles, db.nextCircleId, db.members, db.memberApprovals, db.amountApprovals,
      c, caller);
    ApproveOpenVotesKeepsConsistency(db.circles, db.nextCircleId, db.members, db.memberApprovals,
      db.amountApprovals, c, caller);
    db.amountApprovals := ApproveOpenVotes(db.amountApprovals, c, caller);
    CommitIfAgreed(db, c);
    r := Success(());
  }

  /** The second half of ApproveAmountChange's transaction: once every vote
      of the circle is an approval, the circle takes the amount the first
      vote carries (the live proposal), the proposal is cleared and the
      votes are deleted; otherwise nothing changes. */
  method CommitIfAgreed(db: Database, c: Id)
    requires Consistent(db)
    modifies db
    ensures Consistent(db)
    ensures AmountConsensus(old(db.amountApprovals), c) ==>
      && c in old(db.circles)
      && db.circles == old(db.circles)[c := old(db.circles)[c].(
           amountPerMember := old(db.circles)[c].proposedAmount, proposedAmount := 0)]
      && db.amountApprovals == DeleteVotesOf(old(db.amountApprovals), c)
    ensures !AmountConsensus(old(db.amountApprovals), c) ==>
      db.circles == old(db.circles) && db.amountApprovals == old(db.amountApprovals)
    ensures db.members == old(db.members) && db.memberApprovals == old(db.memberApprovals)
    ensures db.nextCircleId == old(db.nextCircleId)
    ensures OtherTablesUnchanged(db)
  {
    var totalRequired := |Filter(db.amountApprovals, AmountVoteIn(c))|;
    var totalApproved := |Filter(db.amountApprovals, ApprovedAmountVoteIn(c))|;
    if totalRequired > 0 && totalRequired == totalApproved {
      FirstVoteCarriesProposal(db.circles, db.nextCircleId, db.members, db.memberApprovals, db.amountApprovals, c);
      var first := FirstVoteOf(db.amountApprovals, c);
      var amount := first.value.proposedAmount;
      CommitKeepsConsistency(db.circles, db.nextCircleId, db.members, db.memberApprovals, db.amountApprovals,
        c, amount);
      db.circles := db.circles[c := db.circles[c].(amountPerMember := amount, proposedAmount := 0)];
      db.amountApprovals := DeleteVotesOf(db.amountApprovals, c);
    }
  }
}
