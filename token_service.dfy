/** Access-token validation against the token table
    (src/services/tokenService.ts). Read-only: the table is a value. */
module TokenService {
  import opened Js
  import opened ErrorHandler
  import opened Schema
  import opened Jwt

  const RevokedMessage := "Token已失效"

  /** The `findFirst` filter: same access-token string, same user, not yet
      expired at `now`, and never revoked. */
  predicate LiveAccessRow(row: UserToken, token: string, userId: string, now: int) {
    && row.accessToken == token
    && row.userId == userId
    && row.accessExpiresAt >= now
    && row.revokedAt.None?
  }

  predicate HasLiveAccessRow(rows: seq<UserToken>, token: string, userId: string, now: int) {
    exists i :: 0 <= i < |rows| && LiveAccessRow(rows[i], token, userId, now)
  }

  /** The error every validation failure carries: transport status 200 with
      an inner code 401. */
  function UnauthenticatedError(message: string): AppError {
    AppError(message, Some(200), Some(401))
  }

  /** `validateAccessToken(token)` at time `now`. */
  function ValidateAccessToken(verify: Verifier, rows: seq<UserToken>, token: string, now: int)
    : (r: Result<TokenPayload>)
    ensures verify(token).Thrown? ==>
              r == Err(AppError(ClassifyFailure(verify(token).failure), Some(200), Some(401)))
    ensures verify(token).Decoded? ==>
              (r.Ok? <==> HasLiveAccessRow(rows, token, verify(token).payload.userId, now))
    ensures verify(token).Decoded? && !HasLiveAccessRow(rows, token, verify(token).payload.userId, now) ==>
              r == Err(AppError("Token已失效", Some(200), Some(401)))
    ensures r.Ok? ==> r.value == verify(token).payload
  {
    match VerifyToken(verify, token)
    case Err(e) => Err(UnauthenticatedError(e.message))
    case Ok(payload) =>
      if HasLiveAccessRow(rows, token, payload.userId, now) then Ok(payload)
      else Err(UnauthenticatedError(RevokedMessage))
  }

  /** A revoked row never validates, whatever its expiry: if every row with
      this access token is revoked, validation fails with 'Token已失效'. */
  lemma RevokedNeverValidates(verify: Verifier, rows: seq<UserToken>, token: string, now: int)
    requires verify(token).Decoded?
    requires forall i :: 0 <= i < |rows| && rows[i].accessToken == token ==> rows[i].revokedAt.Some?
    ensures ValidateAccessToken(verify, rows, token, now) == Err(AppError("Token已失效", Some(200), Some(401)))
  {
  }

  /** Every validation failure reaches the client with transport status
      200, top-level code 200 and inner code 401. */
  lemma FailureEnvelope(verify: Verifier, rows: seq<UserToken>, token: string, now: int,
                        stack: Option<string>, nodeEnv: string)
    requires ValidateAccessToken(verify, rows, token, now).Err?
    ensures var e := BuildEnvelope(ValidateAccessToken(verify, rows, token, now).error, stack, nodeEnv);
            e.status == 200 && e.code == 200 && e.error.code == 401
  {
  }
}
