/** The password-reset handlers (internal/handlers/password_reset.go):
    RequestPasswordReset issues a one-hour token for a known email after
    retiring that user's older unused tokens, and ResetPassword redeems the
    first live token matching the one presented, replacing the user's
    password hash and consuming the token. Random tokens and bcrypt are
    parameters: the raw token and its stored hash are given to the
    request, the new password's hash to the reset, and whether a presented
    token matches a stored hash is a predicate. */
module PasswordReset {
  import opened Common
  import opened CircleModels
  import opened ResetModels
  import opened CircleTables
  import opened Store

  datatype ResetError =
    | ValidationFailed  // request body fails binding
    | InvalidToken      // no live token matches
    | UserNotFound      // the token's user is gone

  function HttpStatus(e: ResetError): int
  {
    match e
    case ValidationFailed => 400
    case InvalidToken => 400
    case UserNotFound => 404
  }

  /** RequestPasswordReset's two success replies: the generic one, which
      does not reveal whether the email is registered, and the one that
      carries the raw token back to the client. */
  datatype ResetReply = LinkSentIfRegistered | LinkSent(token: string)

  /** The new password must have at least 6 characters. */
  const MinPasswordLength: nat := 6

  // ---------------------------------------------------------------------
  // Statements on the password_reset_tokens table

  function TokenId(t: PasswordResetToken): Id { t.id }

  /** `Where("user_id = ? AND used = ?", userID, false)` */
  function UnusedOf(userId: Id): PasswordResetToken -> bool
  {
    (t: PasswordResetToken) => t.userId == userId && !t.used
  }

  /** `Where("used = ? AND expires_at > ?", false, now)` */
  function LiveAt(now: Instant): PasswordResetToken -> bool
  {
    (t: PasswordResetToken) => !t.used && t.expiresAt > now
  }

  /** The row with primary key `id`, as `Save` addresses it. */
  function TokenWithId(id: Id): PasswordResetToken -> bool
  {
    (t: PasswordResetToken) => t.id == id
  }

  function MarkUsed(t: PasswordResetToken): PasswordResetToken
  {
    t.(used := true)
  }

  /** The bulk update retiring a user's unused tokens. */
  function InvalidateUnused(tokens: seq<PasswordResetToken>, userId: Id): seq<PasswordResetToken>
  {
    UpdateWhere(tokens, UnusedOf(userId), MarkUsed)
  }

  /** The token a request issues: unused, expiring an hour after `now`. */
  function IssuedToken(id: Id, userId: Id, tokenHash: string, now: Instant): (t: PasswordResetToken)
    ensures IsValid(t, now) && !IsValid(t, now + OneHour)
  {
    PasswordResetToken(id, userId, tokenHash, now + OneHour, false)
  }

  /** The tokens ResetPassword may redeem at `now`, in table order. */
  function Candidates(tokens: seq<PasswordResetToken>, now: Instant): seq<PasswordResetToken>
  {
    Filter(tokens, LiveAt(now))
  }

  /** Saving the redeemed token with its used flag set. */
  function Consume(tokens: seq<PasswordResetToken>, id: Id): seq<PasswordResetToken>
  {
    UpdateWhere(tokens, TokenWithId(id), MarkUsed)
  }

  /** The first token whose stored hash matches the presented token. */
  function FirstMatch(tokens: seq<PasswordResetToken>, token: string, matches: (string, string) -> bool)
    : (r: Option<PasswordResetToken>)
    ensures r.Some? ==> r.value in tokens && matches(r.value.tokenHash, token)
  {
    if tokens == [] then None
    else if matches(tokens[0].tokenHash, token) then Some(tokens[0])
    else FirstMatch(tokens[1..], token, matches)
  }

  // ---------------------------------------------------------------------
  // Statements on the users table

  function UserWithId(id: Id): User -> bool
  {
    (u: User) => u.id == id
  }

  function WithPasswordHash(hash: string): User -> User
  {
    (u: User) => u.(passwordHash := hash)
  }

  /** Saving the user with the new password hash. */
  function SetPassword(users: seq<User>, id: Id, hash: string): seq<User>
  {
    UpdateWhere(users, UserWithId(id), WithPasswordHash(hash))
  }

  // ---------------------------------------------------------------------
  // The token invariant

  /** Each user holds at most one unused token. */
  ghost predicate OneUnusedPerUser(tokens: seq<PasswordResetToken>)
  {
    forall i, j :: 0 <= i < j < |tokens| && !tokens[i].used && !tokens[j].used ==>
      tokens[i].userId != tokens[j].userId
  }

  /** Keys are unique and below the next serial key, and each user holds
      at most one unused token. */
  ghost predicate TokensConsistent(tokens: seq<PasswordResetToken>, next: nat)
  {
    && (forall t :: t in tokens ==> t.id < next)
    && DistinctBy(tokens, TokenId)
    && OneUnusedPerUser(tokens)
  }

  // ---------------------------------------------------------------------
  // Properties

  /** The candidate query selects exactly the stored tokens IsValid
      accepts at the same instant. */
  lemma CandidatesAreValidTokens(tokens: seq<PasswordResetToken>, now: Instant)
    ensures forall t :: t in Candidates(tokens, now) <==> t in tokens && IsValid(t, now)
  {
    forall t
      ensures LiveAt(now)(t) == IsValid(t, now)
    {
    }
  }

  /** FirstMatch finds the earliest matching token, and finds none only
      when no token matches. */
  lemma {:induction false} FirstMatchIsEarliest(tokens: seq<PasswordResetToken>, token: string, matches: (string, string) -> bool)
    ensures FirstMatch(tokens, token, matches).None? <==> forall t :: t in tokens ==> !matches(t.tokenHash, token)
    ensures FirstMatch(tokens, token, matches).Some? ==>
      exists i :: 0 <= i < |tokens| && tokens[i] == FirstMatch(tokens, token, matches).value &&
        forall j :: 0 <= j < i ==> !matches(tokens[j].tokenHash, token)
  {
    if tokens != [] && !matches(tokens[0].tokenHash, token) {
      var rest := tokens[1..];
      FirstMatchIsEarliest(rest, token, matches);
      assert tokens == [tokens[0]] + rest;
      if FirstMatch(rest, token, matches).Some? {
        var i :| 0 <= i < |rest| && rest[i] == FirstMatch(rest, token, matches).value &&
          forall j :: 0 <= j < i ==> !matches(rest[j].tokenHash, token);
        assert tokens[i + 1] == rest[i];
        forall j | 0 <= j < i + 1
          ensures !matches(tokens[j].tokenHash, token)
        {
          if j > 0 {
            assert tokens[j] == rest[j - 1];
          }
        }
      }
    } else if tokens != [] {
      assert tokens[0] in tokens;
    }
  }

  /** The token ResetPassword redeems was valid at that instant, and its
      stored hash matches the presented token. */
  lemma RedeemedTokenWasValid(tokens: seq<PasswordResetToken>, now: Instant, token: string, matches: (string, string) -> bool)
    requires FirstMatch(Candidates(tokens, now), token, matches).Some?
    ensures var t := FirstMatch(Candidates(tokens, now), token, matches).value;
      t in tokens && IsValid(t, now) && matches(t.tokenHash, token)
  {
    CandidatesAreValidTokens(tokens, now);
  }

  /** After a request for `userId`, the issued token is that user's only
      unused one, and every other user's tokens are as they were. */
  lemma IssueLeavesOneUnused(tokens: seq<PasswordResetToken>, userId: Id, issued: PasswordResetToken)
    requires issued.userId == userId && !issued.used
    ensures Filter(InvalidateUnused(tokens, userId) + [issued], UnusedOf(userId)) == [issued]
    ensures forall i :: 0 <= i < |tokens| && tokens[i].userId != userId ==> InvalidateUnused(tokens, userId)[i] == tokens[i]
  {
    var retired := InvalidateUnused(tokens, userId);
    forall t | t in retired
      ensures !UnusedOf(userId)(t)
    {
    }
    FilterNone(retired, UnusedOf(userId));
    FilterAppend(retired, [issued], UnusedOf(userId));
    assert Filter([issued], UnusedOf(userId)) == [issued];
  }

  /** Issuing a token keeps the invariant. */
  lemma IssueKeepsConsistency(tokens: seq<PasswordResetToken>, next: nat, userId: Id, tokenHash: string, now: Instant)
    requires TokensConsistent(tokens, next)
    ensures TokensConsistent(InvalidateUnused(tokens, userId) + [IssuedToken(next, userId, tokenHash, now)], next + 1)
  {
    var retired := InvalidateUnused(tokens, userId);
    var issued := IssuedToken(next, userId, tokenHash, now);
    var after := retired + [issued];
    assert forall i :: 0 <= i < |tokens| ==> retired[i].id == tokens[i].id && retired[i].userId == tokens[i].userId;
    forall i, j | 0 <= i < j < |after|
      ensures TokenId(after[i]) != TokenId(after[j])
    {
      if j == |tokens| {
        assert tokens[i] in tokens;
      }
    }
    forall i, j | 0 <= i < j < |after| && !after[i].used && !after[j].used
      ensures after[i].userId != after[j].userId
    {
      if j == |tokens| {
        assert !UnusedOf(userId)(tokens[i]);
      }
    }
  }

  /** Once consumed, the redeemed row is no longer a candidate, so the
      same row cannot be redeemed again. */
  lemma ConsumedTokenNotLive(tokens: seq<PasswordResetToken>, id: Id, now: Instant)
    ensures forall t :: t in Candidates(Consume(tokens, id), now) ==> t.id != id
    ensures forall t :: t in Consume(tokens, id) && t.id == id ==> !IsValid(t, now)
  {
    var after := Consume(tokens, id);
    forall t | t in after && t.id == id
      ensures t.used
    {
      var i :| 0 <= i < |after| && after[i] == t;
    }
  }

  /** Consuming a token keeps the invariant. */
  lemma ConsumeKeepsConsistency(tokens: seq<PasswordResetToken>, next: nat, id: Id)
    requires TokensConsistent(tokens, next)
    ensures TokensConsistent(Consume(tokens, id), next)
  {
    var after := Consume(tokens, id);
    assert forall i :: 0 <= i < |tokens| ==>
      after[i].id == tokens[i].id && after[i].userId == tokens[i].userId && (!after[i].used ==> !tokens[i].used);
    forall t | t in after
      ensures t.id < next
    {
      var i :| 0 <= i < |after| && after[i] == t;
      assert tokens[i] in tokens;
    }
  }

  /** With user keys unique, looking the user up after the save finds the
      same user with the new password hash. */
  lemma {:induction false} SetPasswordStoresHash(users: seq<User>, u: User, hash: string)
    requires FindUserById(users, u.id) == Some(u)
    ensures FindUserById(SetPassword(users, u.id, hash), u.id) == Some(u.(passwordHash := hash))
  {
    var after := SetPassword(users, u.id, hash);
    assert after[0] == if users[0].id == u.id then users[0].(passwordHash := hash) else users[0];
    if users[0].id != u.id {
      SetPasswordStoresHash(users[1..], u, hash);
      assert after[1..] == SetPassword(users[1..], u.id, hash);
    }
  }

  // ---------------------------------------------------------------------
  // The handlers

  /** Nothing outside the users and password_reset_tokens tables changed. */
  twostate predicate CircleTablesUnchanged(db: Database)
    reads db
  {
    && db.circles == old(db.circles)
    && db.members == old(db.members)
    && db.memberApprovals == old(db.memberApprovals)
    && db.amountApprovals == old(db.amountApprovals)
    && db.contributions == old(db.contributions)
    && db.nextCircleId == old(db.nextCircleId)
    && db.nextContributionId == old(db.nextContributionId)
  }

  /** RequestPasswordReset. `isEmail` is the binding's email-format check;
      `token` is the fresh random token and `tokenHash` its bcrypt hash. */
  method RequestPasswordReset(
    db: Database, email: string, isEmail: string -> bool, token: string, tokenHash: string, now: Instant)
    returns (r: Result<ResetReply, ResetError>)
    requires TokensConsistent(db.resetTokens, db.nextTokenId)
    modifies db
    ensures TokensConsistent(db.resetTokens, db.nextTokenId)
    ensures (email == "" || !isEmail(email)) ==> r == Failure(ValidationFailed) && unchanged(db)
    ensures (email != "" && isEmail(email) && FindUserByEmail(old(db.users), email).None?) ==>
      r == Success(LinkSentIfRegistered) && unchanged(db)
    ensures (email != "" && isEmail(email) && FindUserByEmail(old(db.users), email).Some?) ==>
      var user := FindUserByEmail(old(db.users), email).value;
      && r == Success(LinkSent(token))
      && db.resetTokens ==
           InvalidateUnused(old(db.resetTokens), user.id) + [IssuedToken(old(db.nextTokenId), user.id, tokenHash, now)]
      && db.nextTokenId == old(db.nextTokenId) + 1
      && db.users == old(db.users)
      && CircleTablesUnchanged(db)
  {
    if email == "" || !isEmail(email) {
      return Failure(ValidationFailed);
    }
    var found := FindUserByEmail(db.users, email);
    if found.None? {
      return Success(LinkSentIfRegistered);
    }
    var user := found.value;
    IssueKeepsConsistency(db.resetTokens, db.nextTokenId, user.id, tokenHash, now);
    db.resetTokens := InvalidateUnused(db.resetTokens, user.id);
    var resetToken := IssuedToken(db.nextTokenId, user.id, tokenHash, now);
    db.resetTokens := db.resetTokens + [resetToken];
    db.nextTokenId := db.nextTokenId + 1;
    r := Success(LinkSent(token));
  }

  /** The loop over the candidates, stopping at the first whose stored
      hash matches the presented token. */
  method FindMatch(tokens: seq<PasswordResetToken>, token: string, matches: (string, string) -> bool)
    returns (validToken: Option<PasswordResetToken>)
    ensures validToken == FirstMatch(tokens, token, matches)
  {
    validToken := None;
    var i := 0;
    while i < |tokens|
      invariant 0 <= i <= |tokens|
      invariant FirstMatch(tokens[i..], token, matches) == FirstMatch(tokens, token, matches)
    {
      assert tokens[i..][1..] == tokens[i + 1..];
      if matches(tokens[i].tokenHash, token) {
        validToken := Some(tokens[i]);
        break;
      }
      i := i + 1;
    }
  }

  /** ResetPassword. `matches(hash, token)` is bcrypt's comparison and
      `newHash` the bcrypt hash of `newPassword`. */
  method ResetPassword(
    db: Database, token: string, newPassword: string, newHash: string, now: Instant,
    matches: (string, string) -> bool)
    returns (r: Result<(), ResetError>)
    requires TokensConsistent(db.resetTokens, db.nextTokenId)
    modifies db
    ensures TokensConsistent(db.resetTokens, db.nextTokenId)
    ensures (token == "" || |newPassword| < MinPasswordLength) ==> r == Failure(ValidationFailed) && unchanged(db)
    ensures (token != "" && |newPassword| >= MinPasswordLength) ==>
      var valid := FirstMatch(Candidates(old(db.resetTokens), now), token, matches);
      && (valid.None? ==> r == Failure(InvalidToken) && unchanged(db))
      && (valid.Some? && FindUserById(old(db.users), valid.value.userId).None? ==>
            r == Failure(UserNotFound) && unchanged(db))
      && (valid.Some? && FindUserById(old(db.users), valid.value.userId).Some? ==>
            && r == Success(())
            && db.users == SetPassword(old(db.users), valid.value.userId, newHash)
            && db.resetTokens == Consume(old(db.resetTokens), valid.value.id)
            && db.nextTokenId == old(db.nextTokenId)
            && CircleTablesUnchanged(db))
  {
    if token == "" || |newPassword| < MinPasswordLength {
      return Failure(ValidationFailed);
    }
    var tokens := Candidates(db.resetTokens, now);
    var validToken := FindMatch(tokens, token, matches);
    if validToken.None? {
      return Failure(InvalidToken);
    }
    var found := FindUserById(db.users, validToken.value.userId);
    if found.None? {
      return Failure(UserNotFound);
    }
    var user := found.value;
    db.users := SetPassword(db.users, user.id, newHash);
    ConsumeKeepsConsistency(db.resetTokens, db.nextTokenId, validToken.value.id);
    db.resetTokens := Consume(db.resetTokens, validToken.value.id);
    r := Success(());
  }
}
