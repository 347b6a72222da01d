/** Token signing, verification with error classification, and access-token
    reissue from a refresh token (src/utils/jwt.ts). The jsonwebtoken
    library is abstract: `Verifier` is what `jwt.verify` returns or throws
    for a token string, `Signer` what `jwt.sign` returns or throws for a
    payload and an `expiresIn` option. */
module Jwt {
  import opened Js
  import opened ErrorHandler

  datatype TokenType = Access | Refresh

  /** The decoded claims. `iat` and `exp` are the registered claims that
      jsonwebtoken adds when signing and hands back when verifying; they are
      not in the TypeScript interface but are present in every payload that
      `jwt.verify` returns for a token signed with `expiresIn`. */
  datatype TokenPayload = TokenPayload(
    userId: string,
    username: Option<string>,
    phone: Option<string>,
    expiresIn: Option<int>,
    tokenType: Option<TokenType>,
    iat: Option<int>,
    exp: Option<int>)

  /** The two `instanceof` answers for an error `jwt.verify` throws.
      `TokenExpiredError` is a subclass of `JsonWebTokenError`. */
  datatype JwtFailure = JwtFailure(isTokenExpiredError: bool, isJsonWebTokenError: bool)

  datatype VerifyResult = Decoded(payload: TokenPayload) | Thrown(failure: JwtFailure)

  datatype SignResult = Signed(token: string) | SignFailed(message: string)

  type Verifier = string -> VerifyResult
  type Signer = (TokenPayload, string) -> SignResult

  const AccessExpiresIn := "15m"
  const RefreshExpiresIn := "30d"

  const ExpiredMessage := "Token已过期"
  const InvalidMessage := "Token无效"
  const FailedMessage := "Token验证失败"
  const RefreshOnlyMessage := "只有refresh_token才能用于刷新"

  function SignWith(sign: Signer, payload: TokenPayload, expiresIn: string): (r: Result<string>)
    ensures r.Ok? <==> sign(payload, expiresIn).Signed?
    ensures r.Ok? ==> r.value == sign(payload, expiresIn).token
    ensures r.Err? ==> r.error == PlainError(sign(payload, expiresIn).message)
  {
    match sign(payload, expiresIn)
    case Signed(t) => Ok(t)
    case SignFailed(m) => Err(PlainError(m))
  }

  /** `generateAccessToken`: signs with a 15-minute lifetime. */
  function GenerateAccessToken(sign: Signer, payload: TokenPayload): (r: Result<string>)
    ensures r == SignWith(sign, payload, "15m")
  {
    SignWith(sign, payload, AccessExpiresIn)
  }

  /** `generateRefreshToken`: signs with a 30-day lifetime. */
  function GenerateRefreshToken(sign: Signer, payload: TokenPayload): (r: Result<string>)
    ensures r == SignWith(sign, payload, "30d")
  {
    SignWith(sign, payload, RefreshExpiresIn)
  }

  /** The message `verifyToken` throws for a failure. The expiry test comes
      first, so an expired token is never reported as malformed although
      its error is also a `JsonWebTokenError`. */
  function ClassifyFailure(f: JwtFailure): (m: string)
    ensures f.isTokenExpiredError ==> m == "Token已过期"
    ensures !f.isTokenExpiredError && f.isJsonWebTokenError ==> m == "Token无效"
    ensures !f.isTokenExpiredError && !f.isJsonWebTokenError ==> m == "Token验证失败"
  {
    if f.isTokenExpiredError then ExpiredMessage
    else if f.isJsonWebTokenError then InvalidMessage
    else FailedMessage
  }

  /** `verifyToken`: the decoded payload, or a plain `Error` (no statusCode,
      no code) carrying the classified message. */
  function VerifyToken(verify: Verifier, token: string): (r: Result<TokenPayload>)
    ensures r.Ok? <==> verify(token).Decoded?
    ensures r.Ok? ==> r.value == verify(token).payload
    ensures r.Err? ==> r.error.statusCode.None? && r.error.code.None?
    ensures r.Err? ==> r.error.message in {"Token已过期", "Token无效", "Token验证失败"}
    ensures r.Err? ==> (r.error.message == "Token已过期" <==> verify(token).failure.isTokenExpiredError)
  {
    match verify(token)
    case Decoded(p) => Ok(p)
    case Thrown(f) => Err(PlainError(ClassifyFailure(f)))
  }

  /** What `const { type, expiresIn, ...newPayload } = payload` leaves:
      every other claim, including `iat` and `exp`. */
  function SpreadWithoutTypeAndExpiresIn(p: TokenPayload): (q: TokenPayload)
    ensures q.userId == p.userId && q.username == p.username && q.phone == p.phone
    ensures q.tokenType.None? && q.expiresIn.None?
    ensures q.iat == p.iat && q.exp == p.exp
  {
    p.(tokenType := None, expiresIn := None)
  }

  /** The payload a fresh access token should carry: the user claims only,
      with the expiry-related claims removed as well. */
  function ReissuePayload(p: TokenPayload): (q: TokenPayload)
    ensures q.userId == p.userId && q.username == p.username && q.phone == p.phone
    ensures q.tokenType.None? && q.expiresIn.None? && q.iat.None? && q.exp.None?
  {
    p.(tokenType := None, expiresIn := None, iat := None, exp := None)
  }

  /** `refreshToken` as written: verify, reject anything but a refresh
      token, then sign the spread payload with the access lifetime. */
  function RefreshTokenAsWritten(verify: Verifier, sign: Signer, token: string): (r: Result<string>)
    ensures verify(token).Thrown? ==> r == Err(PlainError(ClassifyFailure(verify(token).failure)))
    ensures verify(token).Decoded? && verify(token).payload.tokenType != Some(Refresh) ==>
              r == Err(PlainError("只有refresh_token才能用于刷新"))
    ensures verify(token).Decoded? && verify(token).payload.tokenType == Some(Refresh) ==>
              r == SignWith(sign, SpreadWithoutTypeAndExpiresIn(verify(token).payload), "15m")
  {
    match VerifyToken(verify, token)
    case Err(e) => Err(e)
    case Ok(payload) =>
      if payload.tokenType != Some(Refresh) then Err(PlainError(RefreshOnlyMessage))
      else GenerateAccessToken(sign, SpreadWithoutTypeAndExpiresIn(payload))
  }

  /** `refreshToken` with the expiry claims stripped as its comment intends.
      The type gate and the error paths are those of the code. */
  function RefreshToken(verify: Verifier, sign: Signer, token: string): (r: Result<string>)
    ensures r.Ok? ==> verify(token).Decoded? && verify(token).payload.tokenType == Some(Refresh)
    ensures verify(token).Thrown? ==> r == Err(PlainError(ClassifyFailure(verify(token).failure)))
    ensures verify(token).Decoded? && verify(token).payload.tokenType != Some(Refresh) ==>
              r == Err(PlainError("只有refresh_token才能用于刷新"))
    ensures verify(token).Decoded? && verify(token).payload.tokenType == Some(Refresh) ==>
              r == SignWith(sign, ReissuePayload(verify(token).payload), "15m")
  {
    match VerifyToken(verify, token)
    case Err(e) => Err(e)
    case Ok(payload) =>
      if payload.tokenType != Some(Refresh) then Err(PlainError(RefreshOnlyMessage))
      else GenerateAccessToken(sign, ReissuePayload(payload))
  }

  /** jsonwebtoken's `sign` refuses a payload that already has `exp` when an
      `expiresIn` option is also given. */
  ghost predicate RefusesExpWithExpiresIn(sign: Signer) {
    forall p: TokenPayload, e: string :: p.exp.Some? ==> sign(p, e).SignFailed?
  }

  /** A signer that succeeds on every payload without `exp`. */
  ghost predicate SignsExpFree(sign: Signer) {
    forall p: TokenPayload, e: string :: p.exp.None? ==> sign(p, e).Signed?
  }

  /** The refresh token as written never yields an access token: every
      refresh token carries `exp`, and the spread hands it back to `sign`. */
  lemma RefreshAsWrittenAlwaysFails(verify: Verifier, sign: Signer, token: string)
    requires RefusesExpWithExpiresIn(sign)
    requires verify(token).Decoded? && verify(token).payload.exp.Some?
    ensures RefreshTokenAsWritten(verify, sign, token).Err?
  {
    var p := verify(token).payload;
    assert SpreadWithoutTypeAndExpiresIn(p).exp.Some?;
    assert sign(SpreadWithoutTypeAndExpiresIn(p), AccessExpiresIn).SignFailed?;
  }

  /** With the claims stripped, a verified refresh token always yields a new
      access token from a signer that accepts exp-free payloads. */
  lemma RefreshSucceedsForRefreshTokens(verify: Verifier, sign: Signer, token: string)
    requires SignsExpFree(sign)
    requires verify(token).Decoded? && verify(token).payload.tokenType == Some(Refresh)
    ensures RefreshToken(verify, sign, token).Ok?
    ensures RefreshToken(verify, sign, token).value == sign(ReissuePayload(verify(token).payload), "15m").token
  {
    var p := verify(token).payload;
    assert ReissuePayload(p).exp.None?;
    assert sign(ReissuePayload(p), AccessExpiresIn).Signed?;
  }
}
