# dhukuti savings circles, modelled in Dafny

dhukuti runs savings circles. A circle is a group of users who each
contribute a fixed amount per month. Changing that amount needs every active
member's approval. This project models the parts of the Go backend that hold
state and rules, plus one client-side reduction.

- **Circle handlers** (`internal/handlers/circle.go`):
  - creating a circle;
  - inviting a member, voting on the invite and activating the member;
  - recording a contribution;
  - proposing a new amount, approving it, and committing it once every
    vote is an approval;
  - the read-only circle view (`GetCircle`).
- **Contribution history** (`internal/handlers/contributions.go`): the
  membership check, newest-first order, the user lookup and the response.
- **Password reset** (`internal/handlers/password_reset.go`,
  `internal/models/password_reset.go`): issuing a one-hour token that retires
  the user's older tokens, and redeeming the first live token that matches.
- **History statistics**
  (`web/src/components/circle/ContributionHistory.jsx`): the total, this
  month's total, and the number of distinct contributors.

How the Go code maps to Dafny:

- The database is a `Database` object (`store.dfy`). Each field is a table:
  a sequence of rows in primary-key order, or a map for circles.
- A handler is a method that `modifies` the database.
- A single SQL statement is a function on table values:
  - `Where ... Find` is `Filter`;
  - `Update` is `UpdateWhere`;
  - `Delete` keeps the other rows;
  - `Count` is the length of a `Filter`.
- A Go `for` loop is a `while` loop with invariants. This covers:
  - vote inserts;
  - map-building loops;
  - the user-id dedup loop;
  - the response array fill;
  - the token search with `break`.
- The circle handlers keep the invariant `CircleTables.TablesConsistent`.
  The password handlers keep `PasswordReset.TokensConsistent`.
- Every circle handler states its whole new state.
- The current time comes in as a parameter. So do the random token, its
  bcrypt hash, the new password's hash, and the bcrypt comparison (as a
  predicate).

The model follows the code, not a stricter design, with one exception:
RecordContribution stores the recording month, where the code stores Go's
zero time (see "## Findings"; the as-written row is modelled beside it).
Otherwise:

- Every active member votes on an invitation, and the inviter's vote is
  pre-approved.
  - So an invitation from a sole active admin activates the invitee at once
    (`CircleTables.InviteActivationIff`).
- ProposeAmount does not check two things:
  - whether a proposal is already live;
  - whether the new amount equals the current one.
- ProposeAmount pre-approves the proposer and never checks for completion.
  - So a sole admin's proposal can never be committed.
  - Approving it fails, because no open vote is left
    (`CircleScenarios.SoleAdminProposal`).
- RecordContribution has no duplicate-month check and no live-proposal
  check.
- Membership votes are not restricted to admins: any holder of a vote may
  approve it.

## Model

| member | source | states |
|---|---|---|
| Decimal.Atoi | internal/handlers/contributions.go:26-33 | an id is an optional sign followed by at least one digit, within the 64-bit signed range; empty text, a lone sign and any other character are rejected |
| Decimal.AtoiRoundTrip | internal/handlers/contributions.go:26 | every 64-bit id written in decimal parses back to itself |
| Decimal.ParseUint32 | internal/handlers/circle.go:68-72 | an id is at least one digit and nothing else, at most 2^32-1; anything else is rejected |
| Decimal.ParseUint32RoundTrip | internal/handlers/circle.go:68 | every id below 2^32 written in decimal parses back to itself |
| CircleModels.ColumnDefault | internal/models/circle.go:35-36 | a `not null;default` string column stores the default for "" and the given value otherwise, never "" |
| CircleModels.StoredMember | internal/models/circle.go:35-36 | an inserted membership row keeps circle and user; an empty role becomes "member", an empty status becomes "active" |
| CircleModels.NewCircle | internal/models/circle.go:17-18 | a new circle has the given id, creator and amount, and no live proposal (proposed amount 0) |
| ResetModels.ValidityOnlyEnds | internal/models/password_reset.go:21-23 | a token valid at some instant was valid at every earlier instant, and a used token is valid at no instant |
| Store.FindUserById | internal/handlers/circle.go:263-267 | the lookup by primary key returns a stored user with that id, or reports that none exists |
| Store.FindUserByEmail | internal/handlers/password_reset.go:43-50 | the lookup by email returns a stored user with that email, or reports that no user has it |
| CircleTables.MembersOf | internal/handlers/circle.go:94-95 | the circle's membership rows are exactly the stored rows with that circle id |
| CircleTables.ActiveMembersOf | internal/handlers/circle.go:296-297 | the active members are exactly the circle's rows with status "active" |
| CircleTables.Activate | internal/handlers/circle.go:325-327 | exactly the (circle, user) membership rows become active; every other row is unchanged |
| CircleTables.InviteVotes | internal/handlers/circle.go:299-307 | one vote per active member, in query order, on the invitee, approved exactly when the voter is the inviter |
| CircleTables.ApprovalCompleteIff | internal/handlers/circle.go:319-324 | the two counts agree and are positive iff the pending user has a vote and every such vote is an approval |
| CircleTables.ApproveVotes | internal/handlers/circle.go:337-339 | exactly the approver's votes on the pending user become approvals |
| CircleTables.HasVoteByIff | internal/handlers/circle.go:337-349 | RowsAffected is positive iff the approver holds a vote on that pending user in that circle |
| CircleTables.ProposalVotes | internal/handlers/circle.go:536-545 | one vote per active member, all carrying the proposal and proposer, approved exactly when the voter is the proposer |
| CircleTables.NeedsAmountApprovalIff | internal/handlers/circle.go:561-571 | RowsAffected is positive iff the caller holds an unapproved vote in the circle |
| CircleTables.ApproveOpenVotes | internal/handlers/circle.go:561-563 | exactly the caller's unapproved votes in the circle become approvals |
| CircleTables.AmountConsensusIff | internal/handlers/circle.go:574-581 | the counts agree and are positive iff the circle has votes and all of them are approvals |
| CircleTables.DeleteVotesOf | internal/handlers/circle.go:600-603 | the remaining votes are exactly those of other circles |
| CircleTables.FirstVoteOf | internal/handlers/circle.go:583-586 | `First` returns a vote of the circle, or none exists |
| CircleTables.FirstVoteCarriesProposal | internal/handlers/circle.go:581-594 | under the invariant, at consensus the circle exists and its first vote carries the circle's live proposal |
| CircleTables.OpenVoteNamesStoredCircle | internal/handlers/circle.go:561-571 | under the invariant, an open amount vote belongs to a stored circle |
| CircleTables.MembershipNamesStoredCircle | internal/handlers/circle.go:517-522 | under the invariant, an admin's membership row names a stored circle |
| CircleTables.ActiveMembersDistinctUsers | internal/handlers/circle.go:296-307 | with one membership row per (circle, user), the active members have distinct users, so each gets one vote |
| CircleTables.CreateKeepsConsistency | internal/handlers/circle.go:193-216 | inserting the circle under the next key with its creator's admin row keeps the invariant |
| CircleTables.SoleMembershipOfNewCircle | internal/handlers/circle.go:205-216 | a new circle's only membership row is its creator's |
| CircleTables.PendingInsertKeepsActive | internal/handlers/circle.go:283-297 | inserting the pending row leaves the circle's active members unchanged, so the invitee gets no vote |
| CircleTables.InviteKeepsConsistency | internal/handlers/circle.go:283-307 | the invitee's pending row plus the votes keep the invariant |
| CircleTables.InviteCompleteIff | internal/handlers/circle.go:295-310 | right after the inserts, the invitee's votes are complete iff the circle has active members and all of them are the inviter |
| CircleTables.InvitedRowIsOnlyOne | internal/handlers/circle.go:283-288 | the fresh pending row is not active, and activating it makes the invitee active |
| CircleTables.InviteActivationIff | internal/handlers/circle.go:282-310 | after AddMember's inserts and completion check, the invitee is active iff every active member is the inviter |
| CircleTables.ActivateKeepsConsistency | internal/handlers/circle.go:324-328 | activation keeps the invariant |
| CircleTables.CompleteVotesActivate | internal/handlers/circle.go:318-328 | when the pending user's votes are complete, activation makes them active |
| CircleTables.ApproveVotesKeepsConsistency | internal/handlers/circle.go:337-339 | approving member votes keeps the invariant |
| CircleTables.ProposeKeepsConsistency | internal/handlers/circle.go:524-545 | storing the proposal and replacing the circle's votes keeps the invariant |
| CircleTables.ApproveOpenVotesKeepsConsistency | internal/handlers/circle.go:561-563 | approving amount votes keeps the invariant |
| CircleTables.CommitKeepsConsistency | internal/handlers/circle.go:590-603 | taking the proposed amount, clearing the proposal and deleting the votes keeps the invariant |
| CircleTables.SoleProposerLeavesNothingToApprove | internal/handlers/circle.go:536-545 | when every active member is the proposer, nobody holds an open vote after the proposal |
| CircleTables.DeletedVotesNeedNothing | internal/handlers/circle.go:600-603 | once the committed circle's votes are deleted, nobody needs to approve and there is no consensus |
| CircleHandlers.CreateCircle | internal/handlers/circle.go:178-225 | an empty name or a zero amount is rejected; otherwise a circle with no proposal is stored under a fresh key and its creator becomes an active admin; the invariant holds |
| CircleHandlers.CheckApprovalCompletion | internal/handlers/circle.go:318-329 | the membership is activated exactly when the counts agree, and is then active |
| CircleHandlers.AddMember | internal/handlers/circle.go:228-315 | the checks in source order (user id, circle, admin, user exists, already member) with their errors and no change; otherwise the invitation, ending active iff every active member is the inviter |
| CircleHandlers.Invite | internal/handlers/circle.go:282-310 | the inserts and completion check keep the invariant and produce the invited state |
| CircleHandlers.InsertInvitation | internal/handlers/circle.go:282-307 | the pending row is appended, then one vote per active member in query order |
| CircleHandlers.ApproveMember | internal/handlers/circle.go:332-354 | succeeds iff the approver holds a vote on that user; then the votes are approved and the user is activated once complete; otherwise not found and no change |
| CircleHandlers.ContributionRow | internal/handlers/circle.go:374-379 | the recorded row carries the circle's amount, the member, and the recording month and time (corrected) |
| CircleHandlers.ContributionRowAsWritten | internal/handlers/circle.go:374-379 | as written, the row's month is Go's zero time whatever the recording date |
| CircleHandlers.RecordContribution | internal/handlers/circle.go:357-387 | an unknown circle or a non-active caller gets an error and no change; otherwise one row with the current amount is appended under the next key |
| CircleHandlers.ProposeAmount | internal/handlers/circle.go:507-548 | a zero amount or a non-admin gets an error and no change; otherwise the proposal is stored and the circle's votes are replaced by one per active member, the proposer's pre-approved |
| CircleHandlers.StoreProposal | internal/handlers/circle.go:524-545 | the proposal, the deletion of the circle's votes and the vote loop produce exactly the proposal's votes |
| CircleHandlers.ApproveAmountChange | internal/handlers/circle.go:551-617 | without an open vote: the no-pending error and no change; otherwise the caller's vote is approved, and at consensus the circle takes the proposed amount, the proposal is cleared and the votes are deleted |
| CircleHandlers.CommitIfAgreed | internal/handlers/circle.go:573-606 | at consensus the circle takes its live proposal and loses its votes; otherwise nothing changes |
| CircleProjection.CircleUsers | internal/handlers/circle.go:84-88 | the preloaded members are exactly the users holding a membership row in the circle |
| CircleProjection.MemberViews | internal/handlers/circle.go:104-113 | one entry per circle user, in order, with that user's id and name |
| CircleProjection.PendingApprovals | internal/handlers/circle.go:115-119 | one pending user per unapproved member vote of the caller in the circle |
| CircleProjection.AmountApprovalViews | internal/handlers/circle.go:139-154 | the list has no more entries than there are circle users (its contents are stated by AmountApprovalViewsHold) |
| CircleProjection.GetCircle | internal/handlers/circle.go:66-170 | a malformed id is a bad request; a missing circle or a caller without a membership row gets not-found; otherwise the view of the circle |
| CircleProjection.MemberMaps | internal/handlers/circle.go:93-102 | the loop builds the status and role maps, the last row of a user winning |
| CircleProjection.FillMembers | internal/handlers/circle.go:104-113 | the array filled in place holds exactly the member views |
| CircleProjection.ScanAmountVotes | internal/handlers/circle.go:121-137 | the loop builds the approval map, and its count is positive iff the caller has an open vote |
| CircleProjection.ListAmountApprovals | internal/handlers/circle.go:139-154 | the loop appends exactly the approval entries of the active circle users |
| CircleProjection.NeedsAmountApprovalShown | internal/handlers/circle.go:452-498 | `needs_amount_approval` is true iff the caller holds an unapproved vote in the circle (the same rule in GetCircle and ListCircles) |
| CircleProjection.PendingApprovalsAreOpenVotes | internal/handlers/circle.go:115-119 | the pending list holds exactly the users on whom the caller holds an unapproved vote in the circle |
| CircleProjection.MapsHoldOwnRow | internal/handlers/circle.go:97-102 | with one row per (circle, user), the maps hold each member's own role and status |
| CircleProjection.MemberViewsMatchRows | internal/handlers/circle.go:104-113 | every entry has the role and status of that user's membership row, and every circle user is listed |
| CircleProjection.AmountApprovalViewsHold | internal/handlers/circle.go:139-154 | the approval entries are exactly the circle users whose status is active, each with the map's flag |
| CircleProjection.AmountApprovalsAreActiveMembers | internal/handlers/circle.go:139-154 | every approval entry names an active member |
| CircleProjection.ActiveMembersHaveAmountApprovals | internal/handlers/circle.go:139-154 | every active member who is a user has an approval entry |
| CircleProjection.ApprovalFlagsMatchVotes | internal/handlers/circle.go:131-151 | with one vote per approver, an entry is approved iff that member's vote is an approval |
| CircleScenarios.SoleAdminProposal | internal/handlers/circle.go:536-571 | a sole admin's proposal cannot be approved: approving fails, the amount stays 1000 and the 1500 proposal stays live |
| CircleScenarios.TwoMemberCircle | internal/handlers/circle.go:295-310 | a sole admin's invitee is active at once |
| CircleScenarios.SecondMemberAdmitted | internal/handlers/circle.go:299-310 | the inviter's pre-approved vote completes the invite and activates the row |
| CircleScenarios.SecondApprovalCommits | internal/handlers/circle.go:561-581 | with two members, the second member's approval reaches consensus |
| CircleScenarios.ProposeAndApprove | internal/handlers/circle.go:507-617 | the admin proposes 1500 and the second member approves: the amount becomes 1500 and the proposal is cleared |
| CircleScenarios.TwoMemberProposal | internal/handlers/circle.go:507-617 | the whole two-member flow on a fresh database ends with amount 1500 and no proposal |
| ContributionsHandler.NewestFirstSortsRows | internal/handlers/contributions.go:51-54 | the ordering is newest first and a permutation of the circle's rows |
| ContributionsHandler.DistinctUserIdsHold | internal/handlers/contributions.go:62-70 | the collected ids are exactly the rows' user ids, none twice |
| ContributionsHandler.CollectUserIds | internal/handlers/contributions.go:62-70 | the dedup loop yields the user ids in order of first appearance |
| ContributionsHandler.UserMap | internal/handlers/contributions.go:78-82 | the loop builds the id-to-user map of the fetched users |
| ContributionsHandler.BuildResponses | internal/handlers/contributions.go:84-97 | the array filled in place holds one response per row with the mapped user's name and email |
| ContributionsHandler.GetContributions | internal/handlers/contributions.go:25-100 | a malformed id is a validation error; a caller without a membership row gets not-found; otherwise the circle's listing |
| ContributionsHandler.ListingIsCircleHistory | internal/handlers/contributions.go:51-97 | one entry per contribution of the circle and none from elsewhere, each showing its row's columns, newest first |
| ContributionsHandler.ListingNamesTheUser | internal/handlers/contributions.go:72-97 | with unique user ids, an entry shows the name and email of the user it names |
| ContributionsHandler.ListingWithoutUser | internal/handlers/contributions.go:78-97 | an entry whose user does not exist shows an empty name and email |
| PasswordReset.IssuedToken | internal/handlers/password_reset.go:78-84 | the issued token is valid now and no longer valid one hour later |
| PasswordReset.FirstMatch | internal/handlers/password_reset.go:122-129 | a found token is one of the candidates and matches |
| PasswordReset.FirstMatchIsEarliest | internal/handlers/password_reset.go:122-137 | the search finds the earliest matching candidate, and finds none iff no candidate matches |
| PasswordReset.CandidatesAreValidTokens | internal/handlers/password_reset.go:111-114 | the candidate query selects exactly the stored tokens IsValid accepts at that instant |
| PasswordReset.RedeemedTokenWasValid | internal/handlers/password_reset.go:111-137 | the token redeemed was stored, valid and matching |
| PasswordReset.IssueLeavesOneUnused | internal/handlers/password_reset.go:73-84 | after a request, the issued token is the user's only unused token, and other users' tokens are untouched |
| PasswordReset.IssueKeepsConsistency | internal/handlers/password_reset.go:73-86 | issuing keeps unique keys and at most one unused token per user |
| PasswordReset.ConsumedTokenNotLive | internal/handlers/password_reset.go:163-165 | once consumed, the redeemed row is never valid and never a candidate again |
| PasswordReset.ConsumeKeepsConsistency | internal/handlers/password_reset.go:163-165 | consuming keeps the token invariant |
| PasswordReset.SetPasswordStoresHash | internal/handlers/password_reset.go:146-161 | after the save, looking the user up finds them with the new password hash |
| PasswordReset.RequestPasswordReset | internal/handlers/password_reset.go:35-101 | an empty or malformed email is a validation error; an unknown email gets the generic reply and no change; otherwise the user's unused tokens are retired and one new token is appended; the token invariant holds |
| PasswordReset.FindMatch | internal/handlers/password_reset.go:122-129 | the loop with `break` returns the first matching candidate |
| PasswordReset.ResetPassword | internal/handlers/password_reset.go:104-170 | the binding errors, no match, or a missing user give their errors and no change; otherwise the user's hash is replaced and the matched token is marked used |
| ContributionStats.StatsOf | web/src/components/circle/ContributionHistory.jsx:25-39 | a missing response body gives all-zero stats |
| ContributionStats.TotalAppend | web/src/components/circle/ContributionHistory.jsx:29 | the total of two listings is the sum of their totals |
| ContributionStats.AmountAtMostTotal | web/src/components/circle/ContributionHistory.jsx:29 | every amount is counted in the total |
| ContributionStats.FilterTotalAtMost | web/src/components/circle/ContributionHistory.jsx:30-35 | filtering never raises the total |
| ContributionStats.ThisMonthAtMostTotal | web/src/components/circle/ContributionHistory.jsx:29-35 | this month's figure never exceeds the total |
| ContributionStats.MemberCountBounds | web/src/components/circle/ContributionHistory.jsx:37 | there are at most as many contributors as entries, and none iff the listing is empty |
| ContributionStats.OneContributor | web/src/components/circle/ContributionHistory.jsx:37 | one member's contributions count one contributor |
| ContributionStats.AsWrittenRowNeverThisMonth | web/src/components/circle/ContributionHistory.jsx:30-35 | a contribution recorded as written never changes this month's figure after year 1 |
| ContributionStats.RecordedRowCountsThisMonth | web/src/components/circle/ContributionHistory.jsx:30-35 | a contribution stamped with the current month adds its whole amount to this month's figure |

## Left out

- HTTP plumbing is not modelled:
  - Gin binding, JSON encoding and message strings are not modelled.
  - The 401 reply for a missing identity is not modelled.
  - The caller's user id arrives as a parameter.
  - The required fields of a request body are checked as in the binding tags.
- Database failures and their 500 replies are not modelled (every failed `Create`, `Save`, `Update` or `Find` in the source). Only `ApproveAmountChange`'s no-open-vote failure is modelled, because that is its transaction's own rule.
- CircleHandlers.ApproveAmountChange: the `First` error branch at circle.go:584-586 is not modelled. Under the invariant it cannot happen: consensus implies that a vote exists.
- CircleHandlers.AddMember: the 400 reply for a malformed path id (circle.go:229-233) is not modelled. The id arrives parsed. Id parsing itself is modelled, and GetCircle uses it.
- CircleHandlers.ApproveAmountChange: the 400 reply for a malformed path id (circle.go:552-556) is not modelled, for the same reason.
- CircleHandlers.ApproveMember, CircleHandlers.RecordContribution, CircleHandlers.ProposeAmount: these ignore the parse error in the source (they then use id 0). Here they receive the parsed id.
- ListCircles (circle.go:390-504) is not modelled as a method:
  - Its batching and grouping loops are left out.
  - Its two per-circle rules match GetCircle's and are stated by PendingApprovalsAreOpenVotes and NeedsAmountApprovalShown.
- The order of `Preload("Members")` is taken to be users-table order. The database does not promise an order.
- ContributionsHandler.NewestFirst: contributions created at the same instant keep table order. The database does not promise any tie order.
- Integer widths are not modelled, except in parsing:
  - `uint` ids and amounts are unbounded `nat`.
  - uint overflow of a sum is not modelled.
  - JavaScript number rounding is not modelled.
- Times are given, not read from a clock. A contribution's month is its calendar year and month as the client sees them, so the browser's time-zone conversion in `new Date` is not modelled.
- Cryptography is not modelled:
  - bcrypt, `crypto/rand`, hex encoding and `User.HashPassword` are parameters.
  - The unique index on the token hash is not modelled. A clash would only show up as a database error.
- PasswordReset.RequestPasswordReset: the email-format rule of the binding is a parameter predicate, not a definition of valid email syntax.
- Sending the reset email is not modelled. The source leaves it as a TODO.
- Soft deletion (`DeletedAt`) is not modelled. No row is ever soft-deleted here, and the modelled deletes are `Unscoped`.
- CircleHandlers.RecordContribution: stores the corrected row, whose month is the recording month. The code leaves `Month` unset (circle.go:374-379), so it stores Go's zero time, 0001-01. That as-written row is `CircleHandlers.ContributionRowAsWritten`, and its effect on the history panel is stated by `ContributionStats.AsWrittenRowNeverThisMonth`.
- PasswordReset.FindMatch, PasswordReset.FirstMatch: the candidate query at password_reset.go:111-114 has no ORDER BY. The model takes table order as the order in which the first match is chosen. The choice matters only when two live token hashes both match the presented token.
- Concurrency and transaction isolation are not modelled. Each handler runs alone.
- The React state setters, loading flags and rendering around the statistics are not modelled.

## Findings

| source | as written | input that shows it | evidently intended | confidence | as-written member | corrected member |
|---|---|---|---|---|---|---|
| internal/handlers/circle.go:374-379 | RecordContribution never sets `Month`, so the stored month is Go's zero time (year 1, January) | an active member records a contribution during March 2025; the history panel's this-month figure stays unchanged | the month is set to the recording month, as the comment at that spot says | not executed | ContributionStats.AsWrittenRowNeverThisMonth | ContributionStats.RecordedRowCountsThisMonth |
