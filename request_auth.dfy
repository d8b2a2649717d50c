/**
 * Who is asking (lib/request-auth.ts): a bearer token in the Authorization
 * header, when there is one, decides alone; otherwise the cookie session of
 * the identity provider does.
 */
module RequestAuth {
  import opened Wrappers
  import opened JsText
  import opened JsValue
  import opened AppToken

  /**
   * `/^Bearer\s+(.+)$/i` matches `h` with the group starting at `k`: the first
   * six characters spell "Bearer" in any case, `h[6..k]` is the white space
   * `\s+` consumes, and the group `h[k..]` is not empty and, since `.` does
   * not match them, holds no line terminator.
   */
  ghost predicate MatchesAt(h: string, k: int) {
    && 7 <= k < |h|
    && ToUpper(h[..6]) == "BEARER"
    && (forall i :: 6 <= i < k ==> IsSpace(h[i]))
    && (forall i :: k <= i < |h| ==> !IsLineTerminator(h[i]))
  }

  /** The header as the handler reads it: absent and empty are the same, and it is trimmed. */
  function HeaderText(authorization: Option<string>): string {
    Trim(authorization.GetOr(""))
  }

  /**
   * getBearerToken: the trimmed header is matched against
   * `/^Bearer\s+(.+)$/i`; the group, trimmed, is the token. `\s+` is greedy,
   * so the group starts after all the white space that follows "Bearer".
   */
  function GetBearerToken(authorization: Option<string>): (r: Option<string>)
    ensures r.Some? <==> exists k :: MatchesAt(HeaderText(authorization), k)
    ensures r.Some? ==> exists k :: MatchesAt(HeaderText(authorization), k) &&
                                    r.value == Trim(HeaderText(authorization)[k..])
    ensures r.Some? ==> r.value != [] && IsTrimmed(r.value)
  {
    var h := HeaderText(authorization);
    if |h| < 7 || ToUpper(h[..6]) != "BEARER" || !IsSpace(h[6]) then
      NoMatchWithoutPrefix(h);
      None
    else
      var rest := TrimStart(h[6..]);
      var k := |h| - |rest|;
      GreedySpace(h, rest);
      if exists i :: 0 <= i < |rest| && IsLineTerminator(rest[i]) then
        NoMatchWithTerminator(h, rest);
        None
      else
        MatchAfterSpace(h, rest);
        TrimNonEmpty(rest);
        Some(Trim(rest))
  }

  /** With "Bearer", white space and a group free of line terminators, the greedy split is a match. */
  lemma MatchAfterSpace(h: string, rest: string)
    requires IsTrimmed(h) && |h| >= 7 && ToUpper(h[..6]) == "BEARER" && IsSpace(h[6])
    requires rest == TrimStart(h[6..])
    requires !exists i :: 0 <= i < |rest| && IsLineTerminator(rest[i])
    ensures rest != [] && !IsSpace(rest[0])
    ensures MatchesAt(h, |h| - |rest|) && h[|h| - |rest|..] == rest
  {
    GreedySpace(h, rest);
  }

  lemma NoMatchWithoutPrefix(h: string)
    requires |h| < 7 || ToUpper(h[..6]) != "BEARER" || !IsSpace(h[6])
    ensures !exists k :: MatchesAt(h, k)
  {
  }

  /** After "Bearer" and at least one space, trimming the start of a trimmed header leaves a non-empty group. */
  lemma GreedySpace(h: string, rest: string)
    requires IsTrimmed(h) && |h| >= 7 && IsSpace(h[6])
    requires rest == TrimStart(h[6..])
    ensures rest != [] && 7 <= |h| - |rest| < |h|
    ensures forall i :: 6 <= i < |h| - |rest| ==> IsSpace(h[i])
    ensures h[|h| - |rest|..] == rest
  {
    var t := h[6..];
    if rest == [] {
      assert false;
    }
    if |rest| == |t| {
      assert false;
    }
    forall i | 6 <= i < |h| - |rest|
      ensures IsSpace(h[i])
    {
      assert h[i] == t[i - 6];
    }
  }

  /**
   * When the text after the greedy `\s+` holds a line terminator there is no
   * match: a group starting later would have to begin inside that text,
   * whose first character is not white space, and a group starting earlier
   * contains the terminator.
   */
  lemma NoMatchWithTerminator(h: string, rest: string)
    requires IsTrimmed(h) && |h| >= 7 && IsSpace(h[6])
    requires rest == TrimStart(h[6..])
    requires exists i :: 0 <= i < |rest| && IsLineTerminator(rest[i])
    ensures !exists k :: MatchesAt(h, k)
  {
    GreedySpace(h, rest);
    var start, j := TerminatorAfterSpace(h, rest);
    NoMatchAt(h, start, j);
  }

  /** Where the text after the white space starts, and a line terminator in it, as positions in the header. */
  lemma TerminatorAfterSpace(h: string, rest: string) returns (start: int, j: int)
    requires rest != [] && 7 <= |h| - |rest| && h[|h| - |rest|..] == rest && !IsSpace(rest[0])
    requires exists i :: 0 <= i < |rest| && IsLineTerminator(rest[i])
    ensures 7 <= start <= j < |h| && !IsSpace(h[start]) && IsLineTerminator(h[j])
  {
    var i :| 0 <= i < |rest| && IsLineTerminator(rest[i]);
    start := |h| - |rest|;
    j := start + i;
    assert h[start] == rest[0];
    assert h[j] == rest[i];
  }

  /**
   * With a character `\s` does not match at `start` and a line terminator
   * at or after it, no group can start: one starting after `start` would
   * need `\s` to match there, one starting at or before it would contain the
   * terminator.
   */
  lemma NoMatchAt(h: string, start: int, j: int)
    requires 7 <= start <= j < |h| && !IsSpace(h[start]) && IsLineTerminator(h[j])
    ensures !exists k :: MatchesAt(h, k)
  {
    forall k
      ensures !MatchesAt(h, k)
    {
      if k < 7 || k >= |h| {
      } else if k > start {
        NoMatchPastText(h, start, k);
      } else {
        NoMatchOverTerminator(h, k, j);
      }
    }
  }

  /** A group cannot start after a character `\s` does not match. */
  lemma NoMatchPastText(h: string, start: int, k: int)
    requires 6 <= start < k && start < |h| && !IsSpace(h[start])
    ensures !MatchesAt(h, k)
  {
  }

  /** A group cannot contain a line terminator. */
  lemma NoMatchOverTerminator(h: string, k: int, j: int)
    requires 0 <= k <= j < |h| && IsLineTerminator(h[j])
    ensures !MatchesAt(h, k)
  {
  }

  lemma TrimNonEmpty(s: string)
    requires s != [] && !IsSpace(s[0])
    ensures Trim(s) != []
  {
    assert TrimStart(s) == s;
  }

  lemma UpperBearer()
    ensures ToUpper("Bearer") == "BEARER"
  {
  }

  /** The pieces of "Bearer <t>" the match looks at. */
  lemma BearerPieces(t: string)
    requires t != [] && !IsSpace(t[0])
    ensures var h := "Bearer " + t;
            h[..6] == "Bearer" && IsSpace(h[6]) && h[7..] == t && TrimStart(h[6..]) == t
  {
    var h := "Bearer " + t;
    var u := h[6..];
    assert h[..6] == "Bearer";
    assert u == [' '] + t;
    assert u[1..] == t && h[7..] == t;
    assert TrimStart(t) == t;
    assert TrimStart(u) == TrimStart(u[1..]);
  }

  /** A header "Bearer <t>" yields `t` back, for any `t` that `.+` can match and that is already trimmed. */
  lemma BearerOf(t: string)
    requires t != [] && IsTrimmed(t)
    requires forall i :: 0 <= i < |t| ==> !IsLineTerminator(t[i])
    ensures GetBearerToken(Some("Bearer " + t)) == Some(t)
  {
    var h := "Bearer " + t;
    assert h[|h| - 1] == t[|t| - 1];
    assert IsTrimmed(h);
    assert HeaderText(Some(h)) == h;
    BearerPieces(t);
    UpperBearer();
    assert Trim(t) == t;
  }

  /** A header that is absent, empty, only "Bearer", or "Bearer" glued to the token yields no bearer token. */
  lemma NotBearer()
    ensures GetBearerToken(None) == None
    ensures GetBearerToken(Some("")) == None
    ensures GetBearerToken(Some("Bearer")) == None
    ensures GetBearerToken(Some("Bearerabc")) == None
  {
    assert IsTrimmed("Bearer") && IsTrimmed("Bearerabc");
    assert !IsSpace("Bearerabc"[6]);
  }

  /**
   * getRequestUserId. `sessionUserId` is the user id the identity provider
   * reads from the session cookie (`auth().userId`); `secret` and `now` are
   * what verifyAdminAccessToken reads from the environment and the clock.
   */
  function GetRequestUserId(authorization: Option<string>, sessionUserId: Option<string>,
                            secret: Option<string>, now: int, p: Primitives): (r: Option<Json>)
    ensures r.Some? ==> Truthy(r)
    ensures GetBearerToken(authorization).Some? ==>
              (r.Some? <==> Verify(GetBearerToken(authorization).value, secret, now, p).Accepted?)
    ensures GetBearerToken(authorization).None? ==>
              (r.Some? <==> sessionUserId.Some? && sessionUserId.value != "")
    ensures GetBearerToken(authorization).Some? &&
            Verify(GetBearerToken(authorization).value, secret, now, p).Accepted? ==>
              r == Some(Verify(GetBearerToken(authorization).value, secret, now, p).userId)
    ensures GetBearerToken(authorization).None? && sessionUserId.Some? && sessionUserId.value != "" ==>
              r == Some(JStr(sessionUserId.value))
  {
    match GetBearerToken(authorization)
    case Some(bearer) =>
      (match Verify(bearer, secret, now, p)
       case Accepted(userId) => if Truthy(Some(userId)) then Some(userId) else None
       case Rejected(_) => None)
    case None =>
      if sessionUserId.Some? && sessionUserId.value != "" then Some(JStr(sessionUserId.value)) else None
  }

  /**
   * A bearer token, once present, decides alone: the session is never
   * consulted, so a signed-in session does not rescue a refused token.
   */
  lemma NoSessionFallback(authorization: Option<string>, session1: Option<string>, session2: Option<string>,
                          secret: Option<string>, now: int, p: Primitives)
    requires GetBearerToken(authorization).Some?
    ensures GetRequestUserId(authorization, session1, secret, now, p) ==
            GetRequestUserId(authorization, session2, secret, now, p)
    ensures Verify(GetBearerToken(authorization).value, secret, now, p).Rejected? ==>
            GetRequestUserId(authorization, session1, secret, now, p) == None
  {
  }
}
