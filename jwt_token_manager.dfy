/** The JWT variant of the token manager: the expiry and TTL of a saved
    response come from the `exp` and `iat` claims of the token it carries. */
module JwtTokenManagers {
  import opened Values
  import opened TokenManagers

  /** `jwt.decode(token, verify=False)`: the payload claims of a token, or None
      when the token cannot be decoded. The signature is not checked. */
  type Decoder = Value -> Option<map<string, Value>>

  /** A numeric claim of a decoded payload, as Python's subtraction reads it:
      an integer, or a boolean, which counts as 0 or 1. Any other value (None
      for an absent claim, a string, a container) makes `exp - iat` raise. */
  function IntClaim(claims: map<string, Value>, name: string): (c: Option<int>)
    ensures c.Some? <==> name in claims && (claims[name].Int? || claims[name].Bool?)
    ensures c.Some? && claims[name].Int? ==> c.value == claims[name].i
    ensures c.Some? && claims[name].Bool? ==> c.value == if claims[name].b then 1 else 0
  {
    if name !in claims then None
    else
      match claims[name]
      case Int(i) => Some(i)
      case Bool(b) => Some(if b then 1 else 0)
      case _ => None
  }

  /** The expiry rule of `JWTTokenManager._save_token_info`: decode the token
      stored at the token name, read `exp` and `iat`, and take `exp - iat` as
      the TTL. */
  function JwtExpiry(decode: Decoder, tokenName: Option<string>, response: Response): (r: Result<Expiry, TokenError>)
    ensures decode(Get(response, tokenName)).None? ==> r == Err(DecodeFailed)
    ensures r.Ok? <==>
              decode(Get(response, tokenName)).Some? &&
              IntClaim(decode(Get(response, tokenName)).value, "exp").Some? &&
              IntClaim(decode(Get(response, tokenName)).value, "iat").Some?
    ensures r.Ok? ==>
              var claims := decode(Get(response, tokenName)).value;
              IntClaim(claims, "exp") == Some(r.value.exp) && IntClaim(claims, "iat") == Some(r.value.exp - r.value.ttl)
  {
    var accessToken := Get(response, tokenName);
    match decode(accessToken)
    case None => Err(DecodeFailed)
    case Some(decoded) =>
      match (IntClaim(decoded, "exp"), IntClaim(decoded, "iat"))
      case (None, _) => Err(BadClaim("exp"))
      case (_, None) => Err(BadClaim("iat"))
      case (Some(exp), Some(iat)) => Ok(Expiry(exp, exp - iat))
  }

  /** A token whose claims are `exp` and `iat` expires at `exp` and is due for
      refresh after 80% of its lifetime, a point that lies between `iat` and
      `exp` whenever `iat <= exp`. */
  lemma JwtRefreshWithinLifetime(decode: Decoder, tokenName: Option<string>, response: Response, exp: int, iat: int)
    requires decode(Get(response, tokenName)).Some?
    requires var claims := decode(Get(response, tokenName)).value;
             "exp" in claims && claims["exp"] == Int(exp) && "iat" in claims && claims["iat"] == Int(iat)
    ensures JwtExpiry(decode, tokenName, response) == Ok(Expiry(exp, exp - iat))
    ensures 5.0 * RefreshPoint(exp, exp - iat) == 4.0 * exp as real + iat as real
    ensures iat <= exp ==> iat as real <= RefreshPoint(exp, exp - iat) <= exp as real
  {
  }

  /** Boolean claims are subtracted as integers: `exp = True`, `iat = False`
      give expiry 1 with TTL 1, so the refresh point is 0.8. */
  lemma JwtBooleanClaims(decode: Decoder, tokenName: Option<string>, response: Response)
    requires decode(Get(response, tokenName)) == Some(map["exp" := Bool(true), "iat" := Bool(false)])
    ensures JwtExpiry(decode, tokenName, response) == Ok(Expiry(1, 1))
    ensures RefreshPoint(1, 1) == 0.8
  {
  }

  /** `JWTTokenManager.__init__`: the parent is built without a token name,
      which is set afterwards; the JWT expiry rule is the manager's hook. */
  method NewJwtTokenManager(url: string, decode: Decoder,
                            nameonly disableSslVerification: bool := false, nameonly tokenName: Option<string> := None)
    returns (m: TokenManager)
    ensures fresh(m)
    ensures m.url == url && m.disableSslVerification == disableSslVerification
    ensures m.tokenName == tokenName
    ensures m.tokenInfo == map[] && m.expireTime == 0 && m.refreshTime == 0.0 && m.requestTime == 0
    ensures forall response :: m.extractExpAndTtl(response) == JwtExpiry(decode, tokenName, response)
  {
    m := new TokenManager(url, (response: Response) => JwtExpiry(decode, tokenName, response),
                          disableSslVerification := disableSslVerification);
    m.tokenName := tokenName;
    m.tokenInfo := map[];
  }

  /** Saving a response through a JWT manager: `token_info` is replaced before
      decoding, so a failed decode leaves the new response with the previous
      times; otherwise the times follow the claims. */
  method SaveJwtTokenInfo(m: TokenManager, decode: Decoder, response: Response) returns (r: Result<(), TokenError>)
    requires forall resp :: m.extractExpAndTtl(resp) == JwtExpiry(decode, m.tokenName, resp)
    modifies m`tokenInfo, m`expireTime, m`refreshTime
    ensures m.tokenInfo == response
    ensures r.Err? <==> JwtExpiry(decode, m.tokenName, response).Err?
    ensures r.Err? ==> m.expireTime == old(m.expireTime) && m.refreshTime == old(m.refreshTime)
    ensures r.Ok? ==>
              var claims := decode(Get(response, m.tokenName)).value;
              IntClaim(claims, "exp") == Some(m.expireTime) && IntClaim(claims, "iat").Some? &&
              5.0 * m.refreshTime == 4.0 * m.expireTime as real + IntClaim(claims, "iat").value as real
  {
    r := m.SaveTokenInfo(response);
  }
}
