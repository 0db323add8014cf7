/** The user module's tables (`refresh_token`, `api_token`) and the refresh-token queries
    (`RefreshTokenRepository`). The bulk update and the bulk delete run in the database
    without loading rows; the model applies them to the table in one step. */
module RefreshTokenRepository {
  import opened Wrappers
  import opened KappiTypes
  import opened Seqs
  import opened RefreshTokenModel

  /** An access token row (`ApiToken`): the token string, its user and its expiry. */
  datatype ApiToken = ApiToken(token: string, userId: Guid, expiresAt: Time)

  /** `t.ExpiresAt < now`: the repository's notion of expired (strict, unlike `IsValid`). */
  function ExpiredAt(now: Time): RefreshToken -> bool
  {
    (t: RefreshToken) => t.expiresAt < now
  }

  /** `FindByTokenAsync`: the row holding `token`, if any. */
  function FindByToken(tokens: seq<RefreshToken>, token: string): (r: Option<RefreshToken>)
    ensures r.Some? ==> r.value in tokens && r.value.token == token
    ensures r.None? <==> forall t :: t in tokens ==> t.token != token
  {
    First(tokens, (t: RefreshToken) => t.token == token)
  }

  /** `CountExpiredAsync`. */
  function CountExpired(tokens: seq<RefreshToken>, now: Time): nat
  {
    Count(tokens, ExpiredAt(now))
  }

  /** Unique token strings (the unique index on `Token`) and the column bound. */
  ghost predicate TokenTable(tokens: seq<RefreshToken>)
  {
    Distinct(tokens)
    && (forall a, b :: a in tokens && b in tokens && a.token == b.token ==> a == b)
    && (forall t :: t in tokens ==> |t.token| <= MaxTokenLength)
  }

  class UserDb {
    var refreshTokens: seq<RefreshToken>
    var apiTokens: seq<ApiToken>

    ghost predicate Valid()
      reads this
    {
      TokenTable(refreshTokens)
    }

    constructor ()
      ensures Valid() && refreshTokens == [] && apiTokens == []
    {
      refreshTokens := [];
      apiTokens := [];
    }

    /** `RevokeAllUserTokensAsync`: every live-revocation slot of the user's tokens is filled
        with `now`; tokens revoked earlier keep their revocation time. */
    method RevokeAllUserTokens(userId: Guid, now: Time)
      requires Valid()
      modifies set t | t in refreshTokens
      ensures Valid()
      ensures forall t :: t in refreshTokens ==>
        t.revokedAt == if t.userId == userId && old(t.revokedAt).None? then Some(now) else old(t.revokedAt)
      ensures forall t, at :: t in refreshTokens && t.userId == userId ==> !t.IsValid(at)
    {
      forall t | t in refreshTokens && t.userId == userId && t.revokedAt.None? {
        t.revokedAt := Some(now);
      }
    }

    /** `DeleteExpiredAsync`: removes exactly the rows with `ExpiresAt < now`, keeping the order
        of the rest; as many rows go as `CountExpired` counts at the same instant. */
    method DeleteExpired(now: Time)
      requires Valid()
      modifies this
      ensures Valid()
      ensures refreshTokens == Filter(old(refreshTokens), (t: RefreshToken) => !(t.expiresAt < now))
      ensures forall t :: t in refreshTokens <==> t in old(refreshTokens) && t.expiresAt >= now
      ensures |old(refreshTokens)| - |refreshTokens| == CountExpired(old(refreshTokens), now)
      ensures apiTokens == old(apiTokens)
    {
      var keep := (t: RefreshToken) => !(t.expiresAt < now);
      CountFilterComplement(refreshTokens, ExpiredAt(now), keep);
      FilterDistinct(refreshTokens, keep);
      refreshTokens := Filter(refreshTokens, keep);
    }

    /** `apiTokenRepository.Add(token); SaveChangesAsync()`. */
    method AddApiToken(a: ApiToken)
      modifies this
      ensures apiTokens == old(apiTokens) + [a] && refreshTokens == old(refreshTokens)
    {
      apiTokens := apiTokens + [a];
    }
  }

  /** After a sweep nothing the sweep counts as expired is left, and a second sweep at the
      same instant removes nothing. */
  lemma {:induction false} DeleteExpiredIdempotent(tokens: seq<RefreshToken>, now: Time)
    ensures var rest := Filter(tokens, (t: RefreshToken) => !(t.expiresAt < now));
      CountExpired(rest, now) == 0
      && Filter(rest, (t: RefreshToken) => !(t.expiresAt < now)) == rest
  {
    var keep := (t: RefreshToken) => !(t.expiresAt < now);
    var rest := Filter(tokens, keep);
    FilterAll(rest, keep);
    CountFilterComplement(rest, ExpiredAt(now), keep);
  }

  /** Everything the sweep counts as expired is already rejected by `IsValid`. */
  lemma ExpiredIsInvalid(t: RefreshToken, now: Time)
    requires ExpiredAt(now)(t)
    ensures !t.IsValid(now)
  {
  }

  /** The boundary instant: a token whose expiry is exactly `now` is neither counted nor deleted
      by the sweep at `now`, yet `IsValid` already rejects it. */
  lemma ExpiryInstantGap(tokens: seq<RefreshToken>, t: RefreshToken, now: Time)
    requires t in tokens && t.expiresAt == now
    ensures !ExpiredAt(now)(t) && !t.IsValid(now)
    ensures t in Filter(tokens, (x: RefreshToken) => !(x.expiresAt < now))
  {
  }
}
