/** The access-token refresh endpoint (`TokenRefreshController.Refresh`): a valid refresh
    token buys a new 30-minute access token for its user. The request-model check, the new
    token string, the clock and the outcome of the save are inputs. */
module TokenRefreshController {
  import opened Wrappers
  import opened KappiTypes
  import opened RefreshTokenModel
  import opened RefreshTokenRepository

  /** The lifetime of an access token issued here. */
  const AccessTokenLifetime: int := 30 * Minute

  /** `ApiTokenResponse`; the user is represented by its id. */
  datatype TokenResponse = TokenResponse(token: string, refreshToken: string, userId: Guid)

  /** The outcome before any write: 400 for a malformed request, 401 for an unknown, revoked
      or expired refresh token. The 400 body is the model-state error dictionary, which is
      not modelled; `"invalid_model_state"` labels it. */
  function RefreshDecision(modelValid: bool, found: Option<RefreshToken>, now: Time): (r: Option<(int, string)>)
    reads if found.Some? then {found.value} else {}
    ensures r.None? <==> modelValid && found.Some? && found.value.IsValid(now)
  {
    if !modelValid then Some((400, "invalid_model_state"))
    else if found.None? || !found.value.IsValid(now) then Some((401, "invalid_refresh_token"))
    else None
  }

  /** `Refresh`. `saveThrows` is the database's verdict on the save; it turns into the
      catch-all 500. */
  method Refresh(db: UserDb, modelValid: bool, refreshToken: string, newToken: string, now: Time, saveThrows: bool)
    returns (r: Response<TokenResponse>)
    requires db.Valid()
    modifies db
    ensures db.Valid() && db.refreshTokens == old(db.refreshTokens)
    ensures var found := FindByToken(db.refreshTokens, refreshToken);
      var d := RefreshDecision(modelValid, found, now);
      (d.Some? ==> r == Failure(d.value.0, d.value.1) && db.apiTokens == old(db.apiTokens))
      && (d.None? && saveThrows ==> r == Failure(500, "unexpected_server_error") && db.apiTokens == old(db.apiTokens))
      && (r.Success? <==> d.None? && !saveThrows)
      && (r.Success? ==>
            r == Success(200, TokenResponse(newToken, refreshToken, found.value.userId))
            && db.apiTokens == old(db.apiTokens) + [ApiToken(newToken, found.value.userId, now + AccessTokenLifetime)])
  {
    var found := FindByToken(db.refreshTokens, refreshToken);
    var d := RefreshDecision(modelValid, found, now);
    if d.Some? {
      return Failure(d.value.0, d.value.1);
    }
    if saveThrows {
      return Failure(500, "unexpected_server_error");
    }
    var t := found.value;
    db.AddApiToken(ApiToken(newToken, t.userId, now + AccessTokenLifetime));
    return Success(200, TokenResponse(newToken, t.token, t.userId));
  }

  /** Once a refresh token is rejected for expiry or revocation, it is rejected at every later
      time too. */
  lemma RejectionIsFinal(modelValid: bool, found: Option<RefreshToken>, now: Time, later: Time)
    requires modelValid && found.Some? && RefreshDecision(modelValid, found, now).Some? && now <= later
    ensures RefreshDecision(modelValid, found, later) == Some((401, "invalid_refresh_token"))
  {
    InvalidStaysInvalid(found.value, now, later);
  }
}
