/** The password_reset_tokens row (internal/models/password_reset.go). The
    token column holds a bcrypt hash; here it is an opaque string, and
    whether a presented token matches it is a predicate supplied by the
    caller. */
module ResetModels {
  import opened Common
  import opened CircleModels

  /** Reset links expire one hour after they are issued. */
  const OneHour: int := 3600

  datatype PasswordResetToken = PasswordResetToken(id: Id, userId: Id, tokenHash: string, expiresAt: Instant, used: bool)

  /** A token can still be redeemed at `now`: it has not been used and its
      expiry lies strictly in the future. */
  predicate IsValid(t: PasswordResetToken, now: Instant)
  {
    !t.used && now < t.expiresAt
  }

  /** Validity only ever ends: a token that is valid at some instant was
      valid at every earlier instant, so once used or expired it never
      becomes redeemable again. */
  lemma ValidityOnlyEnds(t: PasswordResetToken, earlier: Instant, later: Instant)
    requires earlier <= later
    ensures IsValid(t, later) ==> IsValid(t, earlier)
    ensures t.used ==> !IsValid(t, earlier)
  {
  }
}
