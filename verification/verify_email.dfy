/**
 The email-verification link handler. The link carries a token and an email
 address; when a member holds that email and that token and the token has not
 yet expired, the member is marked verified, the token is consumed, a login
 cookie is set and the browser is sent to the dashboard. Every other outcome
 is a redirect to the login page with an error message.
 */
module VerifyEmail {
  import opened JsValues
  import opened Members

  const DefaultAppUrl := "http://localhost:3000"

  /** `(NEXT_PUBLIC_APP_URL || default).replace(/\/$/, '')`: the configured
      base url with one trailing slash removed. */
  function AppUrl(env: Option<string>): (r: string)
    ensures var base := if env.Some? && env.value != "" then env.value else DefaultAppUrl;
      (|base| > 0 && base[|base| - 1] == '/' ==> r + "/" == base)
      && (|base| == 0 || base[|base| - 1] != '/' ==> r == base)
  {
    var base := if env.Some? && env.value != "" then env.value else DefaultAppUrl;
    if |base| > 0 && base[|base| - 1] == '/' then base[..|base| - 1] else base
  }

  /** Only one slash goes: a base url ending in two keeps one, so redirects
      built on it contain `//`. */
  lemma AppUrlStripsOneSlash(env: string)
    requires |env| >= 2 && env[|env| - 1] == '/' && env[|env| - 2] == '/'
    ensures var r := AppUrl(Some(env)); |r| > 0 && r[|r| - 1] == '/'
  {
    var r := AppUrl(Some(env));
    assert (r + "/")[|r| - 1] == env[|env| - 2];
  }

  /** The paths the handler redirects to, below the base url. */
  const InvalidLinkPath := "/auth/login?error=Invalid verification link"
  const InvalidTokenPath := "/auth/login?error=Invalid or expired token"
  const FailedPath := "/auth/login?error=Verification failed"
  const DashboardPath := "/dashboard"

  const CookieName := "member_id"
  /** Seven days, in seconds. */
  const CookieMaxAge := 7 * 24 * 60 * 60

  datatype SameSite = Lax | Strict | NoSameSite

  datatype Cookie = Cookie(
    name: string, value: string, httpOnly: bool, secure: bool,
    sameSite: SameSite, maxAge: int, path: string)

  /** The `token` and `email` query parameters (`null` when absent). */
  datatype Query = Query(token: Option<string>, email: Option<string>)

  /** The members collection as the lookup sees it (in the order the lookup
      returns matches), whether the lookup throws (obtaining the CMS client
      just before it included), and whether the update throws. */
  datatype Db = Db(members: seq<Member>, findThrows: bool, updateThrows: bool)

  datatype Response = Response(location: string, cookie: Option<Cookie>, members: seq<Member>)

  /** `!token || !email`: a missing or empty parameter. */
  predicate Missing(p: Option<string>) {
    p.None? || p.value == ""
  }

  /** The lookup's filter: same email, same token, expiry strictly after now. */
  predicate Matches(m: Member, token: string, email: string, now: Time) {
    && m.email == email
    && m.verificationToken == Some(token)
    && m.verificationTokenExpiry.Some?
    && m.verificationTokenExpiry.value > now
  }

  /** The index of the first member the lookup returns. */
  function FirstMatch(ms: seq<Member>, token: string, email: string, now: Time): (r: Option<nat>)
    ensures r.Some? ==> r.value < |ms| && Matches(ms[r.value], token, email, now)
    ensures r.Some? ==> forall j :: 0 <= j < r.value ==> !Matches(ms[j], token, email, now)
    ensures r.None? <==> forall j :: 0 <= j < |ms| ==> !Matches(ms[j], token, email, now)
  {
    if |ms| == 0 then None
    else if Matches(ms[0], token, email, now) then Some(0)
    else
      var rest := FirstMatch(ms[1..], token, email, now);
      assert forall j :: 1 <= j < |ms| ==> ms[j] == ms[1..][j - 1];
      if rest.Some? then Some(rest.value + 1) else None
  }

  /** The update the handler writes. */
  function Verified(m: Member): Member {
    m.(emailVerified := true, verificationToken := None, verificationTokenExpiry := None)
  }

  function LoginCookie(id: string, nodeEnv: Option<string>): Cookie {
    Cookie(CookieName, id, true, nodeEnv == Some("production"), Lax, CookieMaxAge, "/")
  }

  /** The GET handler for `/api/auth/verify-email`. */
  function Verify(q: Query, db: Db, now: Time, appUrlEnv: Option<string>, nodeEnv: Option<string>): Response {
    var base := AppUrl(appUrlEnv);
    if Missing(q.token) || Missing(q.email) then
      Response(base + InvalidLinkPath, None, db.members)
    else if db.findThrows then
      Response(base + FailedPath, None, db.members)
    else
      match FirstMatch(db.members, q.token.value, q.email.value, now)
      case None => Response(base + InvalidTokenPath, None, db.members)
      case Some(i) =>
        if db.updateThrows then Response(base + FailedPath, None, db.members)
        else
          var updated := Verified(db.members[i]);
          Response(base + DashboardPath, Some(LoginCookie(updated.id, nodeEnv)),
                   db.members[i := updated])
  }

  // ---------------------------------------------------------------------
  // Properties

  /** The verification update changes exactly the three verification fields:
      identity, email, wallet and both completion histories are kept, and
      the verified member matches no link any more. */
  lemma VerifiedKeepsOtherFields(m: Member)
    ensures var v := Verified(m);
      && v.id == m.id && v.email == m.email && v.wallet == m.wallet
      && v.completedQuizIds == m.completedQuizIds && v.completedBlogs == m.completedBlogs
      && v.emailVerified && v.verificationToken.None? && v.verificationTokenExpiry.None?
      && forall t, e, now :: !Matches(v, t, e, now)
  {
  }

  /** The handler signs in and reaches the dashboard exactly when both
      parameters are present, neither database call throws and some member
      matches; then the first match, and only it, is verified, and the
      cookie names that member. Every other outcome leaves the members and
      the cookie jar alone. */
  lemma VerifySuccessIff(q: Query, db: Db, now: Time, appUrlEnv: Option<string>, nodeEnv: Option<string>)
    ensures var r := Verify(q, db, now, appUrlEnv, nodeEnv);
      && (r.location == AppUrl(appUrlEnv) + DashboardPath <==>
            !Missing(q.token) && !Missing(q.email) && !db.findThrows && !db.updateThrows
            && exists i :: 0 <= i < |db.members| && Matches(db.members[i], q.token.value, q.email.value, now))
      && (r.cookie.Some? <==> r.location == AppUrl(appUrlEnv) + DashboardPath)
      && (r.cookie.None? ==> r.members == db.members)
  {
    var r := Verify(q, db, now, appUrlEnv, nodeEnv);
    var base := AppUrl(appUrlEnv);
    if r.location == base + DashboardPath {
      DashboardIsNotLogin(base);
    } else if !Missing(q.token) && !Missing(q.email) && !db.findThrows && !db.updateThrows {
      var f := FirstMatch(db.members, q.token.value, q.email.value, now);
      assert f.None?;
    }
  }

  lemma DashboardIsNotLogin(base: string)
    ensures base + DashboardPath != base + InvalidLinkPath
    ensures base + DashboardPath != base + InvalidTokenPath
    ensures base + DashboardPath != base + FailedPath
  {
    assert (base + DashboardPath)[|base| + 1] == 'd';
    assert (base + InvalidLinkPath)[|base| + 1] == 'a';
    assert (base + InvalidTokenPath)[|base| + 1] == 'a';
    assert (base + FailedPath)[|base| + 1] == 'a';
  }

  /** On success the first matching member is verified and every other
      member is untouched; the cookie is the seven-day, http-only,
      lax, root-path `member_id` cookie holding that member's id, secure
      only in production. */
  lemma VerifySuccessEffect(q: Query, db: Db, now: Time, appUrlEnv: Option<string>, nodeEnv: Option<string>)
    requires Verify(q, db, now, appUrlEnv, nodeEnv).cookie.Some?
    ensures var r := Verify(q, db, now, appUrlEnv, nodeEnv);
      exists i :: 0 <= i < |db.members|
        && Matches(db.members[i], q.token.value, q.email.value, now)
        && (forall j :: 0 <= j < i ==> !Matches(db.members[j], q.token.value, q.email.value, now))
        && |r.members| == |db.members|
        && r.members[i] == Verified(db.members[i])
        && (forall j :: 0 <= j < |db.members| && j != i ==> r.members[j] == db.members[j])
        && r.cookie.value.value == db.members[i].id
    ensures var c := Verify(q, db, now, appUrlEnv, nodeEnv).cookie.value;
      && c.name == "member_id" && c.maxAge == 604800 && c.path == "/"
      && c.httpOnly && c.sameSite == Lax
      && (c.secure <==> nodeEnv == Some("production"))
  {
    var i := FirstMatch(db.members, q.token.value, q.email.value, now).value;
    assert 0 <= i < |db.members|;
  }

  /** The failure redirects: a missing parameter, no live match, or an
      exception in either database call. */
  lemma VerifyFailures(q: Query, db: Db, now: Time, appUrlEnv: Option<string>, nodeEnv: Option<string>)
    ensures var r := Verify(q, db, now, appUrlEnv, nodeEnv);
      var base := AppUrl(appUrlEnv);
      && (Missing(q.token) || Missing(q.email) ==> r.location == base + InvalidLinkPath)
      && (!Missing(q.token) && !Missing(q.email) && db.findThrows ==>
            r.location == base + FailedPath)
      && (!Missing(q.token) && !Missing(q.email) && !db.findThrows
          && (forall i :: 0 <= i < |db.members| ==> !Matches(db.members[i], q.token.value, q.email.value, now)) ==>
            r.location == base + InvalidTokenPath)
      && (!Missing(q.token) && !Missing(q.email) && !db.findThrows && db.updateThrows
          && (exists i :: 0 <= i < |db.members| && Matches(db.members[i], q.token.value, q.email.value, now)) ==>
            r.location == base + FailedPath)
  {
  }

  /** A token is good up to, but not at, its expiry instant. */
  lemma ExpiryIsStrict(m: Member, token: string, now: Time)
    requires m.verificationToken == Some(token) && m.verificationTokenExpiry == Some(now)
    ensures !Matches(m, token, m.email, now)
    ensures Matches(m, token, m.email, now - 1)
  {
  }

  /** The indices of the members a link matches. */
  function MatchingSet(ms: seq<Member>, token: string, email: string, now: Time): set<nat> {
    set i: nat | i < |ms| && Matches(ms[i], token, email, now)
  }

  /** Verifying member `i` removes it, and only it, from the members any
      link matches. */
  lemma MatchingAfterVerify(ms: seq<Member>, i: nat, token: string, email: string, now: Time)
    requires i < |ms|
    ensures MatchingSet(ms[i := Verified(ms[i])], token, email, now) == MatchingSet(ms, token, email, now) - {i}
  {
    VerifiedKeepsOtherFields(ms[i]);
  }

  /** A successful verification consumes exactly one member's token: at
      any later time the same link matches the members it matched before,
      less the one verified. */
  lemma VerifyConsumesToken(q: Query, db: Db, now: Time, later: Time, appUrlEnv: Option<string>, nodeEnv: Option<string>)
    requires Verify(q, db, now, appUrlEnv, nodeEnv).cookie.Some?
    ensures var t, e := q.token.value, q.email.value;
      exists i :: i in MatchingSet(db.members, t, e, now)
        && MatchingSet(Verify(q, db, now, appUrlEnv, nodeEnv).members, t, e, later)
             == MatchingSet(db.members, t, e, later) - {i}
  {
    var t, e := q.token.value, q.email.value;
    var i := FirstMatch(db.members, t, e, now).value;
    MatchingAfterVerify(db.members, i, t, e, later);
    assert i in MatchingSet(db.members, t, e, now);
  }

  /** A link that matched a single member works once: following it again,
      at the same time or later, is refused as invalid or expired. */
  lemma VerifyIsSingleUse(q: Query, db: Db, now: Time, later: Time, appUrlEnv: Option<string>, nodeEnv: Option<string>)
    requires Verify(q, db, now, appUrlEnv, nodeEnv).cookie.Some?
    requires |MatchingSet(db.members, q.token.value, q.email.value, now)| == 1
    requires later >= now
    ensures Verify(q, db.(members := Verify(q, db, now, appUrlEnv, nodeEnv).members), later, appUrlEnv, nodeEnv).location
         == AppUrl(appUrlEnv) + InvalidTokenPath
  {
    var t, e := q.token.value, q.email.value;
    var i := FirstMatch(db.members, t, e, now).value;
    var after := Verify(q, db, now, appUrlEnv, nodeEnv).members;
    var atNow := MatchingSet(db.members, t, e, now);
    assert i in atNow;
    assert |atNow - {i}| == 0;
    assert MatchingSet(db.members, t, e, later) <= atNow;
    MatchingAfterVerify(db.members, i, t, e, later);
    assert MatchingSet(after, t, e, later) == {};
    forall j | 0 <= j < |after| ensures !Matches(after[j], t, e, later) {
      assert j !in MatchingSet(after, t, e, later);
    }
  }
}
