/**
 * The bridge token of lib/app-token.ts: a JWS Compact Serialization
 * (section 7.1 of RFC 7515) signed with HS256, whose payload carries the JWT
 * claims sub, iat, exp, iss and aud (section 4.1 of RFC 7519).
 *
 * HMAC-SHA256 and JSON are not defined here: they are passed in as
 * `Primitives`. The clock (`Math.floor(Date.now() / 1000)`) is the parameter
 * `now` and the environment variable ADMIN_APP_TOKEN_SECRET the parameter
 * `secret`.
 */
module AppToken {
  import opened Wrappers
  import opened JsValue
  import opened Base64Url

  const ISSUER: string := "media-repository-admin"
  const AUDIENCE: string := "media-repository-client"
  const MIN_TTL: int := 60
  const DEFAULT_TTL: int := 3600
  /** JSON.stringify({ alg: "HS256", typ: "JWT" }). */
  const HEADER_JSON: string := "{\"alg\":\"HS256\",\"typ\":\"JWT\"}"

  /**
   * The members of a payload as JSON.parse returns them; None is an absent
   * member. A payload that parses to something other than an object (a
   * number, `null`) has every member absent, as `payload?.sub` sees it.
   */
  datatype Claims = Claims(sub: Option<Json>, iat: Option<Json>, exp: Option<Json>,
                           iss: Option<Json>, aud: Option<Json>)

  /**
   * What the module calls but does not define: HMAC-SHA256 of a text under a
   * key; JSON.stringify of a payload, as UTF-8 bytes; and UTF-8 decoding
   * followed by JSON.parse, None where JSON.parse throws.
   */
  datatype Primitives = Primitives(
    hmac: (string, string) -> seq<byte>,
    stringify: Claims -> seq<byte>,
    parse: seq<byte> -> Option<Claims>)

  /** JSON.parse reads back what JSON.stringify writes. */
  ghost predicate Coherent(p: Primitives) {
    forall c :: p.parse(p.stringify(c)) == Some(c)
  }

  /** `!secret` is false: the secret is set and not empty. */
  predicate Configured(secret: Option<string>) {
    secret.Some? && secret.value != ""
  }

  /** The UTF-8 encoding of a text made of ASCII characters. */
  function Ascii(s: string): seq<byte> {
    seq(|s|, i requires 0 <= i < |s| => s[i] as int % 256)
  }

  /** The pieces joined by `sep`: the inverse of `Split`. */
  function Join(parts: seq<string>, sep: char): string
    requires |parts| >= 1
  {
    if |parts| == 1 then parts[0] else parts[0] + [sep] + Join(parts[1..], sep)
  }

  /** String.prototype.split with a one-character separator. */
  function Split(s: string, sep: char): (parts: seq<string>)
    ensures |parts| >= 1
    ensures forall i :: 0 <= i < |parts| ==> sep !in parts[i]
    ensures Join(parts, sep) == s
  {
    if s == [] then [[]]
    else
      var rest := Split(s[1..], sep);
      if s[0] == sep then
        assert s == [sep] + s[1..];
        [[]] + rest
      else
        var parts := [[s[0]] + rest[0]] + rest[1..];
        assert parts[1..] == rest[1..];
        assert s == [s[0]] + s[1..];
        parts
  }

  lemma {:induction false} SplitWithout(a: string, sep: char)
    requires sep !in a
    ensures Split(a, sep) == [a]
  {
    if a != [] {
      SplitWithout(a[1..], sep);
      assert [a[0]] + a[1..] == a;
    }
  }

  lemma {:induction false} SplitFirst(a: string, x: string, sep: char)
    requires sep !in a
    ensures Split(a + [sep] + x, sep) == [a] + Split(x, sep)
  {
    var s := a + [sep] + x;
    if a == [] {
      assert s == [sep] + x && s[1..] == x;
    } else {
      assert s[1..] == a[1..] + [sep] + x;
      SplitFirst(a[1..], x, sep);
      assert [a[0]] + a[1..] == a;
    }
  }

  /** Splitting undoes joining pieces that do not contain the separator. */
  lemma {:induction false} SplitJoin(parts: seq<string>, sep: char)
    requires |parts| >= 1
    requires forall i :: 0 <= i < |parts| ==> sep !in parts[i]
    ensures Split(Join(parts, sep), sep) == parts
  {
    if |parts| == 1 {
      SplitWithout(parts[0], sep);
    } else {
      SplitJoin(parts[1..], sep);
      SplitFirst(parts[0], Join(parts[1..], sep), sep);
      assert parts == [parts[0]] + parts[1..];
    }
  }

  lemma NoDot(s: string)
    requires forall i :: 0 <= i < |s| ==> IsUrlChar(s[i])
    ensures '.' !in s
  {
  }

  lemma JoinThree(h: string, pl: string, sig: string)
    ensures Join([h, pl, sig], '.') == SigningInput(h, pl) + "." + sig
  {
    var parts := [h, pl, sig];
    assert parts[1..] == [pl, sig];
    assert parts[1..][1..] == [sig];
    assert Join([pl, sig], '.') == pl + "." + sig;
  }

  lemma DotFreeThree(h: string, pl: string, sig: string)
    requires '.' !in h && '.' !in pl && '.' !in sig
    ensures forall i :: 0 <= i < |[h, pl, sig]| ==> '.' !in [h, pl, sig][i]
  {
    var parts := [h, pl, sig];
    forall i | 0 <= i < |parts|
      ensures '.' !in parts[i]
    {
      if i == 0 { assert parts[i] == h; }
      else if i == 1 { assert parts[i] == pl; }
      else { assert parts[i] == sig; }
    }
  }

  /** Three base64url segments joined by dots split back into those three segments. */
  lemma ThreeSegments(h: string, pl: string, sig: string)
    requires forall i :: 0 <= i < |h| ==> IsUrlChar(h[i])
    requires forall i :: 0 <= i < |pl| ==> IsUrlChar(pl[i])
    requires forall i :: 0 <= i < |sig| ==> IsUrlChar(sig[i])
    ensures Split(SigningInput(h, pl) + "." + sig, '.') == [h, pl, sig]
  {
    NoDot(h);
    NoDot(pl);
    NoDot(sig);
    DotFreeThree(h, pl, sig);
    JoinThree(h, pl, sig);
    SplitJoin([h, pl, sig], '.');
  }

  /** The characters a token is written with: the base64url alphabet and the dot. */
  predicate IsTokenChar(c: char) {
    IsUrlChar(c) || c == '.'
  }

  lemma TokenAlphabet(h: string, pl: string, sig: string)
    requires forall i :: 0 <= i < |h| ==> IsUrlChar(h[i])
    requires forall i :: 0 <= i < |pl| ==> IsUrlChar(pl[i])
    requires forall i :: 0 <= i < |sig| ==> IsUrlChar(sig[i])
    ensures var t := SigningInput(h, pl) + "." + sig;
            forall i :: 0 <= i < |t| ==> IsTokenChar(t[i])
  {
    var t := SigningInput(h, pl) + "." + sig;
    forall i | 0 <= i < |t|
      ensures IsTokenChar(t[i])
    {
      if i < |h| {
        assert t[i] == h[i];
      } else if i == |h| {
        assert t[i] == '.';
      } else if i < |h| + 1 + |pl| {
        assert t[i] == pl[i - |h| - 1];
      } else if i == |h| + 1 + |pl| {
        assert t[i] == '.';
      } else {
        assert t[i] == sig[i - |h| - 2 - |pl|];
      }
    }
  }

  /** `Math.max(60, ttlSeconds ?? 3600)`. */
  function Ttl(requested: Option<int>): (ttl: int)
    ensures ttl >= MIN_TTL && ttl >= requested.GetOr(DEFAULT_TTL)
    ensures ttl == MIN_TTL || ttl == requested.GetOr(DEFAULT_TTL)
  {
    var t := requested.GetOr(DEFAULT_TTL);
    if t > MIN_TTL then t else MIN_TTL
  }

  /** The payload of a token issued to `userId` at `now` for `ttl` seconds. */
  function IssuedClaims(userId: string, now: int, ttl: int): Claims {
    Claims(Some(JStr(userId)), Some(JNum(now)), Some(JNum(now + ttl)), Some(JStr(ISSUER)), Some(JStr(AUDIENCE)))
  }

  /** `h "." p`, the text the signature covers. */
  function SigningInput(h: string, p: string): string {
    h + "." + p
  }

  datatype Issued = Issued(token: string, expiresAt: int)

  /** issueAdminAccessToken; Failure stands for the exception thrown when the secret is not set. */
  function Issue(userId: string, ttlSeconds: Option<int>, secret: Option<string>, now: int, p: Primitives)
    : (r: Result<Issued, string>)
    ensures r.Success? <==> Configured(secret)
    ensures r.Success? ==> r.value.expiresAt >= now + MIN_TTL
    ensures r.Success? && ttlSeconds.None? ==> r.value.expiresAt == now + DEFAULT_TTL
    ensures r.Success? && ttlSeconds.Some? && ttlSeconds.value >= MIN_TTL ==>
              r.value.expiresAt == now + ttlSeconds.value
    ensures r.Success? && ttlSeconds.Some? && ttlSeconds.value < MIN_TTL ==>
              r.value.expiresAt == now + MIN_TTL
    ensures r.Success? ==> |Split(r.value.token, '.')| == 3
    ensures r.Success? ==> forall i :: 0 <= i < |r.value.token| ==> IsTokenChar(r.value.token[i])
  {
    if !Configured(secret) then Failure("ADMIN_APP_TOKEN_SECRET is not set")
    else
      var ttl := Ttl(ttlSeconds);
      var encodedHeader := Encode(Ascii(HEADER_JSON));
      var encodedPayload := Encode(p.stringify(IssuedClaims(userId, now, ttl)));
      var signingInput := SigningInput(encodedHeader, encodedPayload);
      var sig := Encode(p.hmac(signingInput, secret.value));
      var token := signingInput + "." + sig;
      ThreeSegments(encodedHeader, encodedPayload, sig);
      TokenAlphabet(encodedHeader, encodedPayload, sig);
      Success(Issued(token, now + ttl))
  }

  /**
   * What an issued token carries, read back through the decoders: segment 0
   * is the header {"alg":"HS256","typ":"JWT"}, segment 1 the stringified
   * claims (subject, `iat` the issuing time, `exp` the reported expiry, this
   * issuer and this audience), and segment 2 the encoded HMAC of the first
   * two segments under the secret.
   */
  lemma IssuedSegments(userId: string, ttlSeconds: Option<int>, secret: Option<string>, now: int, p: Primitives)
    requires Configured(secret)
    ensures var t := Issue(userId, ttlSeconds, secret, now, p).value;
            var parts := Split(t.token, '.');
            && |parts| == 3
            && Decode(parts[0]) == Some(Ascii(HEADER_JSON))
            && Decode(parts[1]) == Some(p.stringify(Claims(Some(JStr(userId)), Some(JNum(now)), Some(JNum(t.expiresAt)),
                                                           Some(JStr(ISSUER)), Some(JStr(AUDIENCE)))))
            && parts[2] == Encode(p.hmac(SigningInput(parts[0], parts[1]), secret.value))
    ensures Coherent(p) ==>
              var t := Issue(userId, ttlSeconds, secret, now, p).value;
              ReadClaims(Split(t.token, '.')[1], p) ==
                Some(Claims(Some(JStr(userId)), Some(JNum(now)), Some(JNum(t.expiresAt)), Some(JStr(ISSUER)), Some(JStr(AUDIENCE))))
  {
    var ttl := Ttl(ttlSeconds);
    var h, pl, sig := IssuedParts(userId, ttlSeconds, secret, now, p);
    var t := Issue(userId, ttlSeconds, secret, now, p).value;
    var parts := Split(t.token, '.');
    assert parts[0] == h && parts[1] == pl && parts[2] == sig;
    var exp := t.expiresAt;
    assert exp == now + ttl;
    var claims := Claims(Some(JStr(userId)), Some(JNum(now)), Some(JNum(exp)), Some(JStr(ISSUER)), Some(JStr(AUDIENCE)));
    ClaimsFields(userId, now, ttl, exp);
    DecodeEncode(Ascii(HEADER_JSON));
    DecodeEncode(p.stringify(claims));
  }

  /** The claims of an issued token, member by member. */
  lemma ClaimsFields(userId: string, now: int, ttl: int, exp: int)
    requires exp == now + ttl
    ensures IssuedClaims(userId, now, ttl) ==
              Claims(Some(JStr(userId)), Some(JNum(now)), Some(JNum(exp)), Some(JStr(ISSUER)), Some(JStr(AUDIENCE)))
  {
  }

  /** The three segments of an issued token, as issueAdminAccessToken builds them. */
  lemma IssuedParts(userId: string, ttlSeconds: Option<int>, secret: Option<string>, now: int, p: Primitives)
    returns (h: string, pl: string, sig: string)
    requires Configured(secret)
    ensures h == Encode(Ascii(HEADER_JSON))
    ensures pl == Encode(p.stringify(IssuedClaims(userId, now, Ttl(ttlSeconds))))
    ensures sig == Encode(p.hmac(SigningInput(h, pl), secret.value))
    ensures Issue(userId, ttlSeconds, secret, now, p).value == Issued(SigningInput(h, pl) + "." + sig, now + Ttl(ttlSeconds))
    ensures Split(SigningInput(h, pl) + "." + sig, '.') == [h, pl, sig]
  {
    h := Encode(Ascii(HEADER_JSON));
    pl := Encode(p.stringify(IssuedClaims(userId, now, Ttl(ttlSeconds))));
    sig := Encode(p.hmac(SigningInput(h, pl), secret.value));
    ThreeSegments(h, pl, sig);
  }

  /** Why a token is refused, in the order the checks are made; the source returns null for all of them. */
  datatype Rejection =
    | NoSecret
    | SegmentCount
    | SignatureUndecodable
    | SignatureLength
    | SignatureMismatch
    | PayloadUnreadable
    | MissingSubject
    | WrongIssuer
    | WrongAudience
    | Expired

  datatype Verdict = Accepted(userId: Json) | Rejected(reason: Rejection)

  /** The payload segment decoded and parsed; None where either step fails. */
  function ReadClaims(segment: string, p: Primitives): Option<Claims> {
    match Decode(segment)
    case None => None
    case Some(bytes) => p.parse(bytes)
  }

  /** The signature segment of a three-segment token decodes to the HMAC of its first two segments. */
  predicate Authentic(parts: seq<string>, key: string, p: Primitives) {
    |parts| == 3 && Decode(parts[2]) == Some(p.hmac(SigningInput(parts[0], parts[1]), key))
  }

  /** The claims name a subject, this issuer and this audience, and expire after `now`. */
  predicate Current(c: Claims, now: int) {
    && Truthy(c.sub)
    && c.iss == Some(JStr(ISSUER))
    && c.aud == Some(JStr(AUDIENCE))
    && c.exp.Some? && c.exp.value.JNum? && c.exp.value.n > now
  }

  /** verifyAdminAccessToken. */
  function Verify(token: string, secret: Option<string>, now: int, p: Primitives): (r: Verdict)
    ensures !Configured(secret) ==> r == Rejected(NoSecret)
    ensures Configured(secret) && |Split(token, '.')| != 3 ==> r == Rejected(SegmentCount)
    ensures r.Rejected? && r.reason in {SignatureLength, SignatureMismatch} ==>
              !Authentic(Split(token, '.'), secret.value, p)
    ensures r.Accepted? ==>
              && Configured(secret)
              && Authentic(Split(token, '.'), secret.value, p)
              && var c := ReadClaims(Split(token, '.')[1], p);
              && c.Some? && Current(c.value, now) && c.value.sub == Some(r.userId)
    ensures Configured(secret) && Authentic(Split(token, '.'), secret.value, p) ==>
              match ReadClaims(Split(token, '.')[1], p)
              case None => r == Rejected(PayloadUnreadable)
              case Some(c) => r.Accepted? <==> Current(c, now)
  {
    if !Configured(secret) then Rejected(NoSecret)
    else
      var parts := Split(token, '.');
      if |parts| != 3 then Rejected(SegmentCount)
      else
        var expected := p.hmac(SigningInput(parts[0], parts[1]), secret.value);
        match Decode(parts[2])
        case None => Rejected(SignatureUndecodable)
        case Some(actual) =>
          if |actual| != |expected| then Rejected(SignatureLength)
          else if actual != expected then Rejected(SignatureMismatch)
          else
            match ReadClaims(parts[1], p)
            case None => Rejected(PayloadUnreadable)
            case Some(c) =>
              if !Truthy(c.sub) then Rejected(MissingSubject)
              else if c.iss != Some(JStr(ISSUER)) then Rejected(WrongIssuer)
              else if c.aud != Some(JStr(AUDIENCE)) then Rejected(WrongAudience)
              else if !(c.exp.Some? && c.exp.value.JNum?) || c.exp.value.n <= now then Rejected(Expired)
              else Accepted(c.sub.value)
  }

  /**
   * A token issued for a non-empty user id verifies, under the same secret,
   * to that user id until it expires, and is refused as expired from then on.
   */
  lemma IssueThenVerify(userId: string, ttlSeconds: Option<int>, secret: Option<string>,
                        issuedAt: int, now: int, p: Primitives)
    requires Coherent(p) && Configured(secret) && userId != ""
    ensures var t := Issue(userId, ttlSeconds, secret, issuedAt, p).value;
            Verify(t.token, secret, now, p) ==
              if now < t.expiresAt then Accepted(JStr(userId)) else Rejected(Expired)
  {
    var ttl := Ttl(ttlSeconds);
    var claims := IssuedClaims(userId, issuedAt, ttl);
    var h := Encode(Ascii(HEADER_JSON));
    var pl := Encode(p.stringify(claims));
    var mac := p.hmac(SigningInput(h, pl), secret.value);
    var sig := Encode(mac);
    var token := SigningInput(h, pl) + "." + sig;
    assert Issue(userId, ttlSeconds, secret, issuedAt, p).value == Issued(token, issuedAt + ttl);
    ThreeSegments(h, pl, sig);
    DecodeEncode(mac);
    DecodeEncode(p.stringify(claims));
    assert Authentic(Split(token, '.'), secret.value, p);
    assert ReadClaims(pl, p) == Some(claims);
    VerifyWellFormed(token, secret, now, p, claims);
  }

  /**
   * An authentic token whose claims name a subject, this issuer and this
   * audience, and carry a numeric expiry, is accepted exactly until it
   * expires.
   */
  lemma VerifyWellFormed(token: string, secret: Option<string>, now: int, p: Primitives, c: Claims)
    requires Configured(secret) && Authentic(Split(token, '.'), secret.value, p)
    requires ReadClaims(Split(token, '.')[1], p) == Some(c)
    requires Truthy(c.sub) && c.iss == Some(JStr(ISSUER)) && c.aud == Some(JStr(AUDIENCE))
    requires c.exp.Some? && c.exp.value.JNum?
    ensures Verify(token, secret, now, p) ==
              if now < c.exp.value.n then Accepted(c.sub.value) else Rejected(Expired)
  {
  }

  /**
   * The signature segment is determined by the other two: an accepted token
   * whose signature segment is written in the base64url alphabet carries
   * exactly the encoded HMAC of its header and payload segments, so no other
   * spelling of the signature is accepted.
   */
  lemma SignatureDetermined(token: string, secret: Option<string>, now: int, p: Primitives)
    requires Verify(token, secret, now, p).Accepted?
    requires var parts := Split(token, '.');
             |parts| == 3 && forall i :: 0 <= i < |parts[2]| ==> IsUrlChar(parts[2][i])
    ensures var parts := Split(token, '.');
            parts[2] == Encode(p.hmac(SigningInput(parts[0], parts[1]), secret.value))
  {
  }
}
