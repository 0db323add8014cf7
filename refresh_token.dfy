/** A refresh token (`RefreshToken`): a long-lived credential that can be exchanged for access
    tokens until it expires or is revoked. Everything but the revocation time is assigned once. */
module RefreshTokenModel {
  import opened Wrappers
  import opened KappiTypes

  /** The constructor's default lifetime, in days. */
  const DefaultExpirationDays: int := 60
  /** The `[StringLength(255)]` bound on `Token`. */
  const MaxTokenLength: nat := 255

  class RefreshToken {
    const token: string
    const userId: Guid
    const createdAt: Time
    const expiresAt: Time
    var revokedAt: Option<Time>

    /** `new RefreshToken(user, expirationDays)`; `token` is the random generator's output.
        The constructor reads the clock twice: `createdNow` for `CreatedAt`, then `issuedNow`
        for the base of `ExpiresAt`. */
    constructor (userId: Guid, token: string, createdNow: Time, issuedNow: Time, expirationDays: int)
      ensures this.userId == userId && this.token == token && createdAt == createdNow
      ensures expiresAt == issuedNow + expirationDays * Day
      ensures revokedAt == None
    {
      this.userId := userId;
      this.token := token;
      this.createdAt := createdNow;
      this.expiresAt := issuedNow + expirationDays * Day;
      this.revokedAt := None;
    }

    /** `IsValid`: never revoked and not yet expired; the token is dead from its expiry instant on. */
    predicate IsValid(now: Time)
      reads this
    {
      revokedAt.None? && expiresAt > now
    }

    /** `Revoke` at time `now`: the token is invalid from then on, whatever the clock says. */
    method Revoke(now: Time)
      modifies this
      ensures revokedAt == Some(now)
      ensures forall later :: !IsValid(later)
    {
      revokedAt := Some(now);
    }
  }

  /** A fresh token is valid until just before its expiry and invalid from the expiry on. As
      the second clock reading is no earlier than the first, the token lives at least
      `expirationDays` from its creation time. */
  lemma FreshTokenLifetime(t: RefreshToken, issuedNow: Time, expirationDays: int, at: Time)
    requires t.revokedAt == None && t.expiresAt == issuedNow + expirationDays * Day
    ensures t.IsValid(at) <==> at < issuedNow + expirationDays * Day
    ensures expirationDays == DefaultExpirationDays ==> (t.IsValid(at) <==> at < issuedNow + 60 * Day)
    ensures t.createdAt <= issuedNow && at < t.createdAt + expirationDays * Day ==> t.IsValid(at)
  {
  }

  /** Validity only ever lapses: a token invalid at `now` (by expiry or revocation) is invalid
      at every later time, as long as it is not un-revoked. */
  lemma InvalidStaysInvalid(t: RefreshToken, now: Time, later: Time)
    requires !t.IsValid(now) && now <= later
    ensures !t.IsValid(later)
  {
  }
}
