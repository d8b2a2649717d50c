/**
 * The token exchange of app/api/auth/exchange/route.ts: a client signed in
 * with another identity-provider project presents that project's session
 * token as a bearer token and receives a bridge token of its own.
 */
module AuthExchange {
  import opened Wrappers
  import opened JsText
  import opened JsValue
  import opened Base64Url
  import opened AppToken
  import opened RequestAuth

  /** The bridge token an exchange issues lasts one hour. */
  const EXCHANGE_TTL: int := 60 * 60

  /**
   * What the identity provider's verifyToken does with a token and the
   * verification key: it throws, or it returns a payload whose `sub` member
   * is read (None when the payload or its `sub` is absent).
   */
  datatype ExternalOutcome = Threw | Verified(sub: Option<Json>)

  /** The reply: a JSON body `{ token, expiresAt }` with status 200, or a text body with an error status. */
  datatype Response = Exchanged(token: string, expiresAt: int) | Refused(status: int, message: string)

  /** `typeof payload?.sub === "string" ? payload.sub : null`, then `!userId`: a non-empty string subject. */
  function ExternalSubject(outcome: ExternalOutcome): (r: Option<string>)
    ensures r.Some? <==> outcome.Verified? && outcome.sub.Some? && outcome.sub.value.JStr? && outcome.sub.value.s != ""
    ensures r.Some? ==> outcome.sub == Some(JStr(r.value))
  {
    match outcome
    case Verified(Some(JStr(s))) => if s != "" then Some(s) else None
    case _ => None
  }

  /**
   * POST. `jwtKey` is CLIENT_CLERK_JWT_KEY, `verifyExternal` the identity
   * provider's verifyToken, `secret` and `now` what issueAdminAccessToken
   * reads from the environment and the clock. An exception anywhere inside
   * the handler (the external verification, or the issue without a secret)
   * becomes 401.
   */
  function Exchange(authorization: Option<string>, jwtKey: Option<string>,
                    verifyExternal: (string, string) -> ExternalOutcome,
                    secret: Option<string>, now: int, p: Primitives): (r: Response)
    ensures GetBearerToken(authorization).None? ==> r == Refused(400, "Missing Bearer token")
    ensures GetBearerToken(authorization).Some? && !Configured(jwtKey) ==>
              r == Refused(500, "CLIENT_CLERK_JWT_KEY is not set")
    ensures r.Exchanged? <==>
              && GetBearerToken(authorization).Some?
              && Configured(jwtKey)
              && ExternalSubject(verifyExternal(GetBearerToken(authorization).value, jwtKey.value)).Some?
              && Configured(secret)
    ensures GetBearerToken(authorization).Some? && Configured(jwtKey) && r.Refused? ==>
              r == Refused(401, "Unauthenticated")
    ensures r.Refused? ==> r.status in {400, 401, 500}
    ensures r.Exchanged? ==> r.expiresAt == now + EXCHANGE_TTL
    ensures r.Exchanged? ==> |Split(r.token, '.')| == 3
    ensures r.Exchanged? ==> forall i :: 0 <= i < |r.token| ==> IsTokenChar(r.token[i])
  {
    match GetBearerToken(authorization)
    case None => Refused(400, "Missing Bearer token")
    case Some(clientToken) =>
      if !Configured(jwtKey) then Refused(500, "CLIENT_CLERK_JWT_KEY is not set")
      else
        match ExternalSubject(verifyExternal(clientToken, jwtKey.value))
        case None => Refused(401, "Unauthenticated")
        case Some(userId) =>
          match Issue(userId, Some(EXCHANGE_TTL), secret, now, p)
          case Failure(_) => Refused(401, "Unauthenticated")
          case Success(issued) => Exchanged(issued.token, issued.expiresAt)
  }

  /** A token made of base64url characters and dots, once put after "Bearer ", is read back unchanged. */
  lemma BearerOfToken(t: string)
    requires t != []
    requires forall i :: 0 <= i < |t| ==> IsTokenChar(t[i])
    ensures GetBearerToken(Some("Bearer " + t)) == Some(t)
  {
    assert IsTokenChar(t[0]) && IsTokenChar(t[|t| - 1]);
    assert IsTrimmed(t);
    forall i | 0 <= i < |t|
      ensures !IsLineTerminator(t[i])
    {
      assert IsTokenChar(t[i]);
    }
    BearerOf(t);
  }

  /**
   * The exchange closes the loop: the token it returns, sent back as
   * "Authorization: Bearer <token>", makes getRequestUserId answer the
   * external subject until the token expires, and nobody afterwards,
   * whatever the session says.
   */
  lemma ExchangedTokenResolves(authorization: Option<string>, jwtKey: Option<string>,
                               verifyExternal: (string, string) -> ExternalOutcome,
                               secret: Option<string>, issuedAt: int, p: Primitives,
                               session: Option<string>, now: int)
    requires Coherent(p)
    requires Exchange(authorization, jwtKey, verifyExternal, secret, issuedAt, p).Exchanged?
    ensures var r := Exchange(authorization, jwtKey, verifyExternal, secret, issuedAt, p);
            var sub := ExternalSubject(verifyExternal(GetBearerToken(authorization).value, jwtKey.value)).value;
            GetRequestUserId(Some("Bearer " + r.token), session, secret, now, p) ==
              if now < r.expiresAt then Some(JStr(sub)) else None
  {
    var r := Exchange(authorization, jwtKey, verifyExternal, secret, issuedAt, p);
    var sub := ExchangeIssues(authorization, jwtKey, verifyExternal, secret, issuedAt, p);
    assert r.token != [] by {
      assert |Split(r.token, '.')| == 3;
    }
    BearerOfToken(r.token);
    IssueThenVerify(sub, Some(EXCHANGE_TTL), secret, issuedAt, now, p);
  }

  /** An exchange that succeeds hands back exactly what the issue for the external subject produced. */
  lemma ExchangeIssues(authorization: Option<string>, jwtKey: Option<string>,
                       verifyExternal: (string, string) -> ExternalOutcome,
                       secret: Option<string>, now: int, p: Primitives) returns (sub: string)
    requires Exchange(authorization, jwtKey, verifyExternal, secret, now, p).Exchanged?
    ensures GetBearerToken(authorization).Some? && Configured(jwtKey)
    ensures ExternalSubject(verifyExternal(GetBearerToken(authorization).value, jwtKey.value)) == Some(sub)
    ensures Issue(sub, Some(EXCHANGE_TTL), secret, now, p).Success?
    ensures var issued := Issue(sub, Some(EXCHANGE_TTL), secret, now, p).value;
            Exchange(authorization, jwtKey, verifyExternal, secret, now, p) == Exchanged(issued.token, issued.expiresAt)
  {
    sub := ExternalSubject(verifyExternal(GetBearerToken(authorization).value, jwtKey.value)).value;
  }
}
