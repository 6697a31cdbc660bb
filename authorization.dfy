/** The `verifyToken` middleware of src/helpers/authorization.ts: a gate that
    answers 403 when no access token is sent, 401 when the token library
    rejects the token, and otherwise hands the request on (`next()`). */
module Authorization {
  import opened Wrappers
  import opened Storage
  import opened Http
  import Jwt

  /** The one header the gate consults. Node stores incoming header names in
      lower case and `req.header` looks them up case-insensitively, so the
      map is keyed by lower-case names. */
  const AccessTokenHeader: string := "x-access-token"

  const NoTokenMessage: string := "No access token provided."
  const UnauthorizedMessage: string := "Unauthorized."

  /** Lower-case header name to header text. */
  type Headers = map<string, Jwt.Credential>

  /** The gate either answers the request itself, or calls `next()` once and
      sends nothing. The decoded claims are dropped either way. */
  datatype Gate = Halt(response: Response) | Next

  /** `if (!accessToken)`: a missing header and an empty one are both falsy. */
  predicate TokenPresent(headers: Headers)
  {
    AccessTokenHeader in headers && headers[AccessTokenHeader] != Jwt.Raw("")
  }

  /** `verifyToken(req, res, next)` with the process secret `secret` at time `now`. */
  function VerifyToken(headers: Headers, secret: Option<string>, now: Time): (g: Gate)
    ensures g == Halt(Response(Forbidden, Text(NoTokenMessage))) <==> !TokenPresent(headers)
    ensures g == Halt(Response(Unauthorized, Text(UnauthorizedMessage))) <==>
      TokenPresent(headers) && Jwt.Verify(headers[AccessTokenHeader], secret, now).Failure?
    ensures g == Next <==>
      TokenPresent(headers) && Jwt.Verify(headers[AccessTokenHeader], secret, now).Success?
  {
    if !TokenPresent(headers) then Halt(Response(Forbidden, Text(NoTokenMessage)))
    else if Jwt.Verify(headers[AccessTokenHeader], secret, now).Success? then Next
    else Halt(Response(Unauthorized, Text(UnauthorizedMessage)))
  }

  /** In terms of the token itself: the request passes exactly when the
      header carries a well-formed token signed with the configured
      (non-empty) secret whose `exp` lies after the current second, or, with
      no usable secret configured, an unsigned token whose `exp` lies after
      it. Every other request is stopped with 403 or 401, and those two
      answers differ. */
  lemma GateAdmitsExactlyLiveTokens(headers: Headers, secret: Option<string>, now: Time)
    ensures VerifyToken(headers, secret, now) == Next <==>
      && AccessTokenHeader in headers
      && (|| (&& headers[AccessTokenHeader].Encoded?
              && Jwt.SecretUsable(secret)
              && headers[AccessTokenHeader].token.key == secret.value
              && now < headers[AccessTokenHeader].token.claims.exp)
          || (&& headers[AccessTokenHeader].Unsigned?
              && !Jwt.SecretUsable(secret)
              && now < headers[AccessTokenHeader].payload.exp))
    ensures VerifyToken(headers, secret, now) != Next ==>
      VerifyToken(headers, secret, now).response.status in {Forbidden, Unauthorized}
    ensures Response(Forbidden, Text(NoTokenMessage)) != Response(Unauthorized, Text(UnauthorizedMessage))
  {
  }

  /** No other header influences the decision. */
  lemma GateReadsOnlyAccessHeader(h1: Headers, h2: Headers, secret: Option<string>, now: Time)
    requires AccessTokenHeader in h1 <==> AccessTokenHeader in h2
    requires AccessTokenHeader in h1 ==> h1[AccessTokenHeader] == h2[AccessTokenHeader]
    ensures VerifyToken(h1, secret, now) == VerifyToken(h2, secret, now)
  {
  }

  /** A token issued with `expiresIn` seconds of lifetime at `issuedAt` is let
      through at every second before `issuedAt + expiresIn` and answered 401
      from then on. */
  lemma IssuedTokenAdmittedUntilExpiry(sub: nat, role: string, secret: Option<string>,
                                       issuedAt: Time, expiresIn: int, now: Time)
    requires Jwt.SecretUsable(secret)
    ensures Jwt.Sign(sub, role, secret, issuedAt, expiresIn).Success?
    ensures var t := Jwt.Sign(sub, role, secret, issuedAt, expiresIn).value;
      VerifyToken(map[AccessTokenHeader := Jwt.Encoded(t)], secret, now) ==
        if now < issuedAt + expiresIn then Next
        else Halt(Response(Unauthorized, Text(UnauthorizedMessage)))
  {
    Jwt.SignThenVerify(sub, role, secret, issuedAt, expiresIn, now);
  }

  /** Without a usable secret in the environment no signed token gets
      through, but an unsigned one does until its `exp`: anyone can pass the
      gate with claims of their own choosing. */
  lemma NoSecretAdmitsOnlyUnsigned(headers: Headers, secret: Option<string>, now: Time)
    requires !Jwt.SecretUsable(secret)
    ensures VerifyToken(headers, secret, now) == Next <==>
      && AccessTokenHeader in headers
      && headers[AccessTokenHeader].Unsigned?
      && now < headers[AccessTokenHeader].payload.exp
  {
  }

  /** With no secret configured, an unsigned token carrying any claims, an
      Admin's included, is let through. */
  lemma NoSecretForgedAdminPasses(secret: Option<string>, now: Time)
    requires !Jwt.SecretUsable(secret)
    ensures VerifyToken(map[AccessTokenHeader := Jwt.Unsigned(Jwt.Claims(1, "Admin", now, now + 1))], secret, now) == Next
  {
  }
}
