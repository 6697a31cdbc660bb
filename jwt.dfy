/** The token library (jsonwebtoken 8) as an abstract, verified-by-contract
    token. A token is its claims plus the secret it was signed with; the
    HMAC and base64url encoding are not modelled, so a signed token verifies
    exactly when the verifier holds the same secret and it has not expired.
    An unsigned token (`alg: none`, empty signature) verifies exactly when the
    verifier holds no usable secret and it has not expired. */
module Jwt {
  import opened Wrappers
  import opened Storage

  /** The payload as encoded: `sub` (section 4.1.2 of RFC 7519), the custom
      `role` claim, `iat` (section 4.1.6) and `exp` (section 4.1.4), all
      times in seconds. */
  datatype Claims = Claims(sub: nat, role: string, iat: Time, exp: Time)

  datatype Token = Token(claims: Claims, key: string)

  /** The text of an access-token header: a string that is not a
      well-formed token at all, an encoded signed token, or an unsigned token
      that anyone can write (the last two are never the empty string). */
  datatype Credential = Raw(text: string) | Encoded(token: Token) | Unsigned(payload: Claims)

  datatype JwtError = SecretMissing | Malformed | InvalidSignature | SignatureRequired | Expired

  /** The library refuses to sign or verify with an undefined or empty secret. */
  predicate SecretUsable(secret: Option<string>)
  {
    secret.Some? && secret.value != ""
  }

  /** `jwt.sign(payload, secret, {expiresIn})`: `iat` is the current second and
      `exp` lies `expiresIn` seconds later. */
  function Sign(sub: nat, role: string, secret: Option<string>, now: Time, expiresIn: int): (r: Result<Token, JwtError>)
    ensures r.Success? <==> SecretUsable(secret)
    ensures r.Success? ==> r.value.key == secret.value
    ensures r.Success? ==> r.value.claims.sub == sub && r.value.claims.role == role
    ensures r.Success? ==> r.value.claims.exp - r.value.claims.iat == expiresIn && r.value.claims.iat == now
  {
    if !SecretUsable(secret) then Failure(SecretMissing)
    else Success(Token(Claims(sub, role, now, now + expiresIn), secret.value))
  }

  /** `jwt.verify(token, secret)` without an `algorithms` option. A signed
      token needs a usable secret equal to the one it was signed with. An
      unsigned token is refused when a usable secret is configured; without
      one, the library falls back to the algorithm list `['none']` and
      accepts it. Either way the current time must lie before `exp`
      (section 4.1.4 of RFC 7519; no clock tolerance by default). `iat` is
      not checked against the clock. */
  function Verify(c: Credential, secret: Option<string>, now: Time): (r: Result<Claims, JwtError>)
    ensures r.Success? <==>
      || (SecretUsable(secret) && c.Encoded? && c.token.key == secret.value && now < c.token.claims.exp)
      || (!SecretUsable(secret) && c.Unsigned? && now < c.payload.exp)
    ensures r.Success? && c.Encoded? ==> r.value == c.token.claims
    ensures r.Success? && c.Unsigned? ==> r.value == c.payload
    ensures r.Success? ==> !c.Raw?
  {
    match c
    case Raw(_) => Failure(Malformed)
    case Unsigned(p) =>
      if SecretUsable(secret) then Failure(SignatureRequired)
      else if now >= p.exp then Failure(Expired)
      else Success(p)
    case Encoded(t) =>
      if !SecretUsable(secret) then Failure(SecretMissing)
      else if t.key != secret.value then Failure(InvalidSignature)
      else if now >= t.claims.exp then Failure(Expired)
      else Success(t.claims)
  }

  /** Verifying what was signed gives back its claims, exactly until the
      lifetime has run out; afterwards it fails as expired. */
  lemma SignThenVerify(sub: nat, role: string, secret: Option<string>, issuedAt: Time, expiresIn: int, now: Time)
    requires SecretUsable(secret)
    ensures Sign(sub, role, secret, issuedAt, expiresIn).Success?
    ensures var t := Sign(sub, role, secret, issuedAt, expiresIn).value;
      Verify(Encoded(t), secret, now) ==
        if now < issuedAt + expiresIn then Success(Claims(sub, role, issuedAt, issuedAt + expiresIn))
        else Failure(Expired)
  {
  }

  /** A token signed under one secret never verifies under another, whatever
      its claims are. */
  lemma WrongSecretRejected(t: Token, secret: Option<string>, now: Time)
    requires secret != Some(t.key)
    ensures Verify(Encoded(t), secret, now).Failure?
  {
  }
}
