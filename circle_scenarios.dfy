/** Two runs of the circle handlers on a fresh database, showing how the
    amount-change flow behaves end to end: with a second active member it
    commits, while a sole admin's own proposal can never be approved
    because ProposeAmount pre-approves the proposer's vote and never checks
    for completion itself. */
module CircleScenarios {
  import opened Common
  import opened CircleModels
  import opened CircleTables
  import opened Store
  import opened CircleHandlers

  /** A sole admin proposes a new amount: their only vote is already an
      approval, so approving answers that nothing is pending, and the
      circle keeps its old amount with the proposal live for good. */
  method SoleAdminProposal() returns (r: Result<(), HandlerError>, amount: Amount, proposed: Amount)
    ensures r == Failure(NoPendingAmountApproval)
    ensures amount == 1000 && proposed == 1500
  {
    var db := new Database([User(1, "Asha", "asha@example.com", "hash")]);
    EmptyTablesConsistent();
    var created := CreateCircle(db, 1, "Family", "", 1000);
    var c := created.value;
    var admin := CircleMember(c, 1, RoleAdmin, StatusActive);
    assert db.members == [admin];
    assert admin in db.members;
    var proposal := ProposeAmount(db, c, 1, 1500);
    var active := ActiveMembersOf([admin], c);
    SoleProposerLeavesNothingToApprove([], active, c, 1, 1500, 1);
    r := ApproveAmountChange(db, c, 1);
    amount := db.circles[c].amountPerMember;
    proposed := db.circles[c].proposedAmount;
  }

  /** An admin invites a second user, who becomes active at once because
      the admin is the only active member. */
  method TwoMemberCircle() returns (db: Database, c: Id)
    ensures fresh(db) && Consistent(db)
    ensures db.members == [CircleMember(c, 1, RoleAdmin, StatusActive), CircleMember(c, 2, RoleMember, StatusActive)]
    ensures c in db.circles && db.circles[c].amountPerMember == 1000 && db.circles[c].proposedAmount == 0
    ensures db.amountApprovals == []
  {
    db := new Database([User(1, "Asha", "asha@example.com", "hash"), User(2, "Bikash", "bikash@example.com", "hash")]);
    EmptyTablesConsistent();
    var created := CreateCircle(db, 1, "Family", "", 1000);
    c := created.value;
    var admin := CircleMember(c, 1, RoleAdmin, StatusActive);
    assert db.members == [admin];
    assert admin in db.members;
    assert db.users[1].id == 2;
    var added := AddMember(db, c, 1, 2, "");
    SecondMemberAdmitted(c);
  }

  /** The invite's single vote is the inviter's own pre-approval, so the
      completion check activates the invitee's row. */
  lemma SecondMemberAdmitted(c: Id)
    ensures var admin := CircleMember(c, 1, RoleAdmin, StatusActive);
      var votes := [] + InviteVotes(ActiveMembersOf([admin], c), c, 2, 1);
      && ApprovalComplete(votes, c, 2)
      && Activate([admin] + [CircleMember(c, 2, RoleMember, StatusPending)], c, 2) ==
           [admin, CircleMember(c, 2, RoleMember, StatusActive)]
  {
    var admin := CircleMember(c, 1, RoleAdmin, StatusActive);
    FilterAll([admin], ActiveInCircle(c));
    InviteCompleteIff([], [admin], c, 2, 1);
  }

  /** The second member's approval turns the last open vote into an
      approval, so the circle reaches consensus. */
  lemma SecondApprovalCommits(c: Id)
    ensures var votes := ProposalVotes([CircleMember(c, 1, RoleAdmin, StatusActive),
                                        CircleMember(c, 2, RoleMember, StatusActive)], c, 1, 1500);
      && NeedsAmountApproval(votes, c, 2)
      && AmountConsensus(ApproveOpenVotes(votes, c, 2), c)
  {
    var votes := ProposalVotes([CircleMember(c, 1, RoleAdmin, StatusActive),
                                CircleMember(c, 2, RoleMember, StatusActive)], c, 1, 1500);
    NeedsAmountApprovalIff(votes, c, 2);
    assert votes[1] in votes;
    var approved := ApproveOpenVotes(votes, c, 2);
    AmountConsensusIff(approved, c);
    assert approved == [votes[0], votes[1].(approved := true)];
  }

  /** With two active members, the admin's proposal waits for the second
      member, whose approval commits it and clears the proposal. */
  method TwoMemberProposal() returns (r: Result<(), HandlerError>, amount: Amount, proposed: Amount)
    ensures r == Success(())
    ensures amount == 1500 && proposed == 0
  {
    var db, c := TwoMemberCircle();
    r := ProposeAndApprove(db, c);
    amount := db.circles[c].amountPerMember;
    proposed := db.circles[c].proposedAmount;
  }

  /** The admin (user 1) proposes 1500 and the second member (user 2)
      approves. */
  method ProposeAndApprove(db: Database, c: Id) returns (r: Result<(), HandlerError>)
    requires Consistent(db) && c in db.circles && db.amountApprovals == []
    requires db.members == [CircleMember(c, 1, RoleAdmin, StatusActive), CircleMember(c, 2, RoleMember, StatusActive)]
    modifies db
    ensures r == Success(())
    ensures c in db.circles && db.circles[c].amountPerMember == 1500 && db.circles[c].proposedAmount == 0
  {
    var admin := CircleMember(c, 1, RoleAdmin, StatusActive);
    var second := CircleMember(c, 2, RoleMember, StatusActive);
    assert admin in db.members;
    assert ActiveMembersOf(db.members, c) == [admin, second] by {
      FilterAll([admin, second], ActiveInCircle(c));
    }
    var proposal := ProposeAmount(db, c, 1, 1500);
    assert DeleteVotesOf([], c) == [];
    assert db.amountApprovals == ProposalVotes([admin, second], c, 1, 1500);
    SecondApprovalCommits(c);
    r := ApproveAmountChange(db, c, 2);
  }
}
