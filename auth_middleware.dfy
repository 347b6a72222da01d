/** The bearer-token middleware (src/middlewares/auth.ts). It checks the
    signature only and never reads the token table. */
module AuthMiddleware {
  import opened Js
  import opened ErrorHandler
  import opened Schema
  import opened Jwt
  import opened TokenService

  const MissingTokenMessage := "未提供认证token"

  /** `authHeader && authHeader.split(' ')[1]`: the second space-separated
      field of a truthy header, if there is one. */
  function BearerToken(authorization: Option<string>): (t: Option<string>)
    ensures t.Some? ==> Truthy(authorization) && ' ' !in t.value
    ensures t.Some? ==> |Split(authorization.value, ' ')| >= 2 && t.value == Split(authorization.value, ' ')[1]
    ensures Truthy(authorization) && |Split(authorization.value, ' ')| >= 2 ==> t.Some?
  {
    if !Truthy(authorization) then None
    else
      var parts := Split(authorization.value, ' ');
      if |parts| >= 2 then Some(parts[1]) else None
  }

  /** The catch block: an error that carries a truthy statusCode is passed
      on unchanged, any other becomes a 401 'Token验证失败'. */
  function RemapError(e: AppError): (r: AppError)
    ensures TruthyNum(e.statusCode) ==> r == e
    ensures !TruthyNum(e.statusCode) ==> r == AppError("Token验证失败", Some(401), None)
  {
    if TruthyNum(e.statusCode) then e else StatusError(FailedMessage, 401)
  }

  /** The outcome of the middleware: the payload that becomes `req.user`,
      or the error handed to `next`. */
  function Authenticate(verify: Verifier, authorization: Option<string>): (r: Result<TokenPayload>)
    ensures !Truthy(BearerToken(authorization)) ==> r == Err(AppError("未提供认证token", Some(401), None))
    ensures Truthy(BearerToken(authorization)) ==>
              (r.Ok? <==> verify(BearerToken(authorization).value).Decoded?)
    ensures r.Ok? ==> r.value == verify(BearerToken(authorization).value).payload
    ensures Truthy(BearerToken(authorization)) && r.Err? ==> r == Err(AppError("Token验证失败", Some(401), None))
  {
    var token := BearerToken(authorization);
    if !Truthy(token) then Err(RemapError(StatusError(MissingTokenMessage, 401)))
    else
      match VerifyToken(verify, token.value)
      case Ok(payload) => Ok(payload)
      case Err(e) => Err(RemapError(e))
  }

  /** The Express request as far as the middleware sees it: the header it
      reads, the `user` field it sets, and the arguments `next` was called
      with (`None` for a bare `next()`). */
  class AuthRequest {
    const authorization: Option<string>
    var user: Option<TokenPayload>
    var nextCalls: seq<Option<AppError>>

    constructor (authorization: Option<string>)
      ensures this.authorization == authorization && user.None? && nextCalls == []
    {
      this.authorization := authorization;
      user := None;
      nextCalls := [];
    }
  }

  /** `authenticateToken`: calls `next` exactly once; sets `req.user` only on
      success. */
  method AuthenticateToken(verify: Verifier, req: AuthRequest)
    modifies req
    ensures Authenticate(verify, req.authorization).Ok? ==>
              req.user == Some(Authenticate(verify, req.authorization).value)
              && req.nextCalls == old(req.nextCalls) + [None]
    ensures Authenticate(verify, req.authorization).Err? ==>
              req.user == old(req.user)
              && req.nextCalls == old(req.nextCalls) + [Some(Authenticate(verify, req.authorization).error)]
  {
    var outcome := Authenticate(verify, req.authorization);
    match outcome {
      case Ok(payload) =>
        req.user := Some(payload);
        req.nextCalls := req.nextCalls + [None];
      case Err(e) =>
        req.nextCalls := req.nextCalls + [Some(e)];
    }
  }

  /** `Bearer <t>` yields `t` when `t` holds no space. */
  lemma {:induction false} BearerTokenOfHeader(t: string)
    requires ' ' !in t
    ensures BearerToken(Some("Bearer " + t)) == Some(t)
  {
    var h := "Bearer " + t;
    assert h == "Bearer" + [' '] + t;
    SplitAfterWord("Bearer", ' ', t);
    SplitNoSep(t, ' ');
    assert Split(h, ' ') == ["Bearer", t];
  }

  /** The asymmetry with `validateAccessToken`: a correctly signed token
      whose rows are all revoked still passes the middleware, while the
      check-token validation rejects it. */
  lemma {:induction false} RevokedTokenPassesMiddleware(verify: Verifier, rows: seq<UserToken>, t: string, now: int)
    requires ' ' !in t && t != ""
    requires verify(t).Decoded?
    requires forall i :: 0 <= i < |rows| && rows[i].accessToken == t ==> rows[i].revokedAt.Some?
    ensures Authenticate(verify, Some("Bearer " + t)) == Ok(verify(t).payload)
    ensures ValidateAccessToken(verify, rows, t, now).Err?
  {
    BearerTokenOfHeader(t);
    RevokedNeverValidates(verify, rows, t, now);
  }

  /** Whatever `verifyToken` reports (expired, malformed or other), the
      middleware answers with the same 401. */
  lemma {:induction false} VerifyFailuresCollapse(verify: Verifier, t: string)
    requires ' ' !in t && t != ""
    requires verify(t).Thrown?
    ensures Authenticate(verify, Some("Bearer " + t)) == Err(AppError("Token验证失败", Some(401), None))
  {
    BearerTokenOfHeader(t);
  }
}
