/** The request guards of the authentication endpoints and the logout
    revocation loop (src/controllers/authController.ts). Request body and
    header fields are optional strings; `loginUser` and `refreshUserToken`
    are not part of this model, so login and refresh end at the values they
    would be called with. */
module AuthController {
  import opened Js
  import opened ErrorHandler
  import opened Schema
  import opened Jwt
  import opened TokenService

  datatype Credentials = Credentials(identifier: string, password: string)

  /** `loginController`: `identifier || username`, both it and the password
      must be truthy. */
  function LoginController(identifier: Option<string>, username: Option<string>, password: Option<string>)
    : (r: Result<Credentials>)
    ensures r.Ok? <==> (Truthy(identifier) || Truthy(username)) && Truthy(password)
    ensures r.Ok? ==> r.value.password == password.value
    ensures r.Ok? ==> r.value.identifier == (if Truthy(identifier) then identifier.value else username.value)
    ensures r.Err? ==> r.error == AppError("用户名/手机号和密码不能为空", Some(400), None)
  {
    var loginIdentifier := Or(identifier, username);
    if !Truthy(loginIdentifier) || !Truthy(password) then
      Err(StatusError("用户名/手机号和密码不能为空", 400))
    else
      Ok(Credentials(loginIdentifier.value, password.value))
  }

  /** `refreshTokenController`: the refresh token is `refresh_token ||
      token`; when neither is truthy the result is a 400. */
  function RefreshTokenController(refresh_token: Option<string>, token: Option<string>): (r: Result<string>)
    ensures r.Ok? <==> Truthy(refresh_token) || Truthy(token)
    ensures r.Ok? ==> r.value == (if Truthy(refresh_token) then refresh_token.value else token.value)
    ensures r.Err? ==> r.error == AppError("Token不能为空", Some(400), None)
  {
    var refreshToken := Or(refresh_token, token);
    if !Truthy(refreshToken) then Err(StatusError("Token不能为空", 400))
    else Ok(refreshToken.value)
  }

  /** `validateTokenController`: a missing header is status 200 / code 400;
      otherwise the header string itself, without removing any `Bearer `
      prefix, is what gets validated. */
  function ValidateTokenController(verify: Verifier, rows: seq<UserToken>, authorization: Option<string>, now: int)
    : (r: Result<TokenPayload>)
    ensures !Truthy(authorization) ==> r == Err(AppError("Token不能为空", Some(200), Some(400)))
    ensures Truthy(authorization) ==> r == ValidateAccessToken(verify, rows, authorization.value, now)
  {
    if !Truthy(authorization) then Err(AppError("Token不能为空", Some(200), Some(400)))
    else ValidateAccessToken(verify, rows, authorization.value, now)
  }

  /** One row after `updateMany({ where: { refreshToken }, data: { revokedAt } })`. */
  function RevokeRow(row: UserToken, refreshToken: string, now: int): UserToken {
    if row.refreshToken == refreshToken then row.(revokedAt := Some(now)) else row
  }

  /** The whole table after the update. */
  function RevokeMatching(rows: seq<UserToken>, refreshToken: string, now: int): (r: seq<UserToken>)
    ensures |r| == |rows|
  {
    seq(|rows|, i requires 0 <= i < |rows| => RevokeRow(rows[i], refreshToken, now))
  }

  /** `logoutController`: soft-revokes, in place, every row whose refresh
      token matches; a missing `refresh_token` is a 400 before any change. */
  method LogoutController(rows: array<UserToken>, refresh_token: Option<string>, now: int)
    returns (r: Result<string>)
    modifies rows
    ensures !Truthy(refresh_token) ==> r == Err(AppError("refresh_token不能为空", Some(400), None))
    ensures !Truthy(refresh_token) ==> rows[..] == old(rows[..])
    ensures Truthy(refresh_token) ==> r == Ok("注销成功")
    ensures Truthy(refresh_token) ==> rows[..] == RevokeMatching(old(rows[..]), refresh_token.value, now)
  {
    if !Truthy(refresh_token) {
      return Err(StatusError("refresh_token不能为空", 400));
    }
    var rt := refresh_token.value;
    for i := 0 to rows.Length
      invariant forall k :: 0 <= k < i ==> rows[k] == RevokeRow(old(rows[k]), rt, now)
      invariant forall k :: i <= k < rows.Length ==> rows[k] == old(rows[k])
    {
      if rows[i].refreshToken == rt {
        rows[i] := rows[i].(revokedAt := Some(now));
      }
    }
    return Ok("注销成功");
  }

  /** Logout marks exactly the rows with that refresh token and leaves every
      other row as it was. */
  lemma RevokeMatchingEffect(rows: seq<UserToken>, refreshToken: string, now: int, i: int)
    requires 0 <= i < |rows|
    ensures rows[i].refreshToken == refreshToken ==> RevokeMatching(rows, refreshToken, now)[i].revokedAt == Some(now)
    ensures rows[i].refreshToken != refreshToken ==> RevokeMatching(rows, refreshToken, now)[i] == rows[i]
    ensures RevokeMatching(rows, refreshToken, now)[i].(revokedAt := rows[i].revokedAt) == rows[i]
  {
  }

  /** An unknown refresh token updates zero rows. */
  lemma {:induction false} UnknownTokenChangesNothing(rows: seq<UserToken>, refreshToken: string, now: int)
    requires forall i :: 0 <= i < |rows| ==> rows[i].refreshToken != refreshToken
    ensures RevokeMatching(rows, refreshToken, now) == rows
  {
    var r := RevokeMatching(rows, refreshToken, now);
    forall i | 0 <= i < |rows| ensures r[i] == rows[i] {
      assert r[i] == RevokeRow(rows[i], refreshToken, now);
    }
  }

  /** Repeating logout leaves the same rows revoked (only the timestamps of
      already revoked rows move). */
  lemma LogoutIdempotent(rows: seq<UserToken>, refreshToken: string, t1: int, t2: int, i: int)
    requires 0 <= i < |rows|
    ensures var once := RevokeMatching(rows, refreshToken, t1);
            RevokeMatching(once, refreshToken, t2)[i].revokedAt.Some? == once[i].revokedAt.Some?
  {
  }

  /** After logout, no access token whose every row belongs to that refresh
      token validates any more. */
  lemma LogoutBlocksAccess(verify: Verifier, rows: seq<UserToken>, refreshToken: string, now: int,
                           token: string, later: int)
    requires verify(token).Decoded?
    requires forall i :: 0 <= i < |rows| && rows[i].accessToken == token ==> rows[i].refreshToken == refreshToken
    ensures ValidateAccessToken(verify, RevokeMatching(rows, refreshToken, now), token, later).Err?
  {
    var after := RevokeMatching(rows, refreshToken, now);
    forall i | 0 <= i < |after| && after[i].accessToken == token
      ensures after[i].revokedAt.Some?
    {
      assert after[i] == RevokeRow(rows[i], refreshToken, now);
    }
    RevokedNeverValidates(verify, after, token, later);
  }
}
