/**
 * Authentication rules: the password policy, the per-address sliding-window
 * login limiter, the guard order of a login attempt and its next-URL check,
 * the CSRF decision and token, and the decisions of the access decorators.
 */
module Auth {
  import opened Wrappers
  import opened Text
  import opened Query
  import opened Tables

  // ---------------------------------------------------------------- password policy

  const MinPasswordLength := 8

  /** Passwords refused in any letter case. */
  const CommonPasswords: set<string> := {
    "password", "12345678", "123456789", "1234567890", "qwerty123",
    "password1", "iloveyou", "sunshine1", "princess1", "football1",
    "abc12345", "monkey123", "shadow123", "master123", "dragon123",
    "qwertyui", "trustno1", "letmein1", "baseball1", "password123"
  }

  datatype PasswordError = TooShort | TooCommon

  /** The length rule comes first; only a long enough password is looked up in the list. */
  function ValidatePassword(password: string): (r: Option<PasswordError>)
    ensures r == Some(TooShort) <==> |password| < MinPasswordLength
    ensures r.None? <==> |password| >= MinPasswordLength && Lower(password) !in CommonPasswords
  {
    if |password| < MinPasswordLength then Some(TooShort)
    else if Lower(password) in CommonPasswords then Some(TooCommon)
    else None
  }

  /** The verdict does not depend on letter case. */
  lemma ValidationIgnoresCase(password: string)
    ensures ValidatePassword(Lower(password)) == ValidatePassword(password)
  {
    LowerIdempotent(password);
  }

  /** No listed password is shadowed by the length rule: each is refused as too common. */
  lemma EveryCommonPasswordRefused(password: string)
    requires password in CommonPasswords
    ensures ValidatePassword(password) == Some(TooCommon)
  {
    assert Lower(password) == password by {
      forall i | 0 <= i < |password|
        ensures LowerChar(password[i]) == password[i]
      {
        assert !('A' <= password[i] <= 'Z');
      }
    }
  }

  // ---------------------------------------------------------------- login rate limiter

  const RateLimit := 5
  const RateWindow: real := 60.0
  const SweepThreshold := 1000

  /** Login attempt times per client address. */
  type Log = map<string, seq<real>>

  /** A defaultdict read: an address never seen has no attempts. */
  function AttemptsOf(log: Log, ip: string): seq<real> {
    if ip in log then log[ip] else []
  }

  predicate InWindow(now: real, t: real) {
    now - t < RateWindow
  }

  function RecentFilter(now: real): real -> bool {
    t => InWindow(now, t)
  }

  /** The attempts made less than a window before `now`, in their original order. */
  function Recent(attempts: seq<real>, now: real): seq<real> {
    Where(attempts, RecentFilter(now))
  }

  /** What the sweep forgets: an empty list, or a last attempt more than a window old. */
  predicate Stale(attempts: seq<real>, now: real) {
    attempts == [] || now - attempts[|attempts| - 1] > RateWindow
  }

  function StaleKeys(log: Log, now: real): set<string> {
    set k | k in log && Stale(log[k], now)
  }

  /** The log once a check for `ip` at `now` has pruned it and, on a large log, swept it. */
  function Checked(log: Log, ip: string, now: real): Log {
    var pruned := log[ip := Recent(AttemptsOf(log, ip), now)];
    var swept := if |pruned| > SweepThreshold then pruned - StaleKeys(pruned, now) else pruned;
    swept[ip := AttemptsOf(swept, ip)]
  }

  /** The verdict of a check: at least `RateLimit` attempts inside the window. */
  predicate Limited(log: Log, ip: string, now: real) {
    |Recent(AttemptsOf(log, ip), now)| >= RateLimit
  }

  /** The log once an attempt by `ip` at `t` is recorded. */
  function Recorded(log: Log, ip: string, t: real): Log {
    log[ip := AttemptsOf(log, ip) + [t]]
  }

  /** The last attempt still inside the window is itself inside it, so a pruned list is never stale unless empty. */
  lemma RecentNotStale(attempts: seq<real>, now: real)
    ensures Recent(attempts, now) != [] ==> !Stale(Recent(attempts, now), now)
  {
    var r := Recent(attempts, now);
    WhereMembers(attempts, RecentFilter(now));
    if r != [] {
      assert r[|r| - 1] in r;
    }
  }

  /** After a check the address holds exactly its attempts inside the window, in order. */
  lemma CheckPrunes(log: Log, ip: string, now: real)
    ensures ip in Checked(log, ip, now)
    ensures Checked(log, ip, now)[ip] == Recent(AttemptsOf(log, ip), now)
    ensures forall t :: t in Checked(log, ip, now)[ip] <==> t in AttemptsOf(log, ip) && now - t < RateWindow
  {
    var r := Recent(AttemptsOf(log, ip), now);
    var pruned := log[ip := r];
    RecentNotStale(AttemptsOf(log, ip), now);
    WhereMembers(AttemptsOf(log, ip), RecentFilter(now));
    if |pruned| > SweepThreshold && r != [] {
      assert ip !in StaleKeys(pruned, now);
    }
  }

  /** On a log of more than `SweepThreshold` addresses every other stale address is deleted and the rest are kept. */
  lemma CheckSweeps(log: Log, ip: string, now: real, k: string)
    requires k != ip
    requires |log[ip := Recent(AttemptsOf(log, ip), now)]| > SweepThreshold
    ensures k in Checked(log, ip, now) <==> k in log && !Stale(log[k], now)
    ensures k in Checked(log, ip, now) ==> Checked(log, ip, now)[k] == log[k]
  {
  }

  /** Below the threshold a check touches no other address. */
  lemma CheckKeepsSmallLog(log: Log, ip: string, now: real, k: string)
    requires k != ip
    requires |log[ip := Recent(AttemptsOf(log, ip), now)]| <= SweepThreshold
    ensures k in Checked(log, ip, now) <==> k in log
    ensures k in log ==> Checked(log, ip, now)[k] == log[k]
  {
  }

  /** An attempt recorded inside the window counts towards the next check, on top of the earlier ones. */
  lemma {:induction false} RecordedAttemptCounts(log: Log, ip: string, t: real, now: real)
    requires InWindow(now, t)
    ensures Recent(AttemptsOf(Recorded(log, ip, t), ip), now) == Recent(AttemptsOf(log, ip), now) + [t]
  {
    WhereAppend(AttemptsOf(log, ip), [t], RecentFilter(now));
    assert Where([t], RecentFilter(now)) == [t] + Where([], RecentFilter(now));
  }

  /** Once limited, an address stays limited while further attempts are recorded at the same instant. */
  lemma LimitSticks(log: Log, ip: string, now: real)
    requires Limited(log, ip, now)
    ensures Limited(Recorded(log, ip, now), ip, now)
  {
    RecordedAttemptCounts(log, ip, now, now);
  }

  /** The module-level attempts map of the login handler. */
  class RateLimiter {
    var log: Log

    constructor()
      ensures log == map[]
    {
      log := map[];
    }

    /** Prunes `ip`'s attempts to the window, sweeps stale addresses from a large log, and reports the verdict. */
    method IsRateLimited(ip: string, now: real) returns (limited: bool)
      modifies this
      ensures log == Checked(old(log), ip, now)
      ensures limited == Limited(old(log), ip, now)
    {
      ghost var log0 := log;
      log := log[ip := Recent(AttemptsOf(log, ip), now)];
      if |log| > SweepThreshold {
        Sweep(now);
      }
      log := log[ip := AttemptsOf(log, ip)];
      limited := |log[ip]| >= RateLimit;
      CheckPrunes(log0, ip, now);
    }

    /** Deletes every stale address, one at a time. */
    method Sweep(now: real)
      modifies this
      ensures log == old(log) - StaleKeys(old(log), now)
    {
      var stale := StaleKeys(log, now);
      var pending := stale;
      while pending != {}
        invariant pending <= stale
        invariant log == old(log) - (stale - pending)
        decreases |pending|
      {
        var k :| k in pending;
        log := log - {k};
        pending := pending - {k};
      }
      assert stale - pending == stale;
    }

    /** Appends `t` to `ip`'s attempts; no other address changes. */
    method RecordAttempt(ip: string, t: real)
      modifies this
      ensures log == Recorded(old(log), ip, t)
    {
      log := log[ip := AttemptsOf(log, ip) + [t]];
    }
  }

  // ---------------------------------------------------------------- session

  /** The signed session cookie's contents that the rules read and write. */
  class Session {
    var userId: Option<int>
    var freshLogin: bool
    var csrfToken: Option<string>

    constructor()
      ensures userId == None && !freshLogin && csrfToken == None
    {
      userId := None;
      freshLogin := false;
      csrfToken := None;
    }

    /** Returns the session's token, storing `newToken` first when there is none. */
    method GenerateCsrfToken(newToken: string) returns (token: string)
      modifies this`csrfToken
      ensures (csrfToken, token) == IssuedToken(old(csrfToken), newToken)
    {
      if csrfToken.None? {
        csrfToken := Some(newToken);
      }
      token := csrfToken.value;
    }

    /** Logging out clears the whole session. */
    method Clear()
      modifies this
      ensures userId == None && !freshLogin && csrfToken == None
    {
      userId := None;
      freshLogin := false;
      csrfToken := None;
    }
  }

  // ---------------------------------------------------------------- CSRF

  /** The stored token and the returned one after a token request; `newToken` is a new random token. */
  function IssuedToken(stored: Option<string>, newToken: string): (r: (Option<string>, string))
    ensures r.0 == Some(r.1)
    ensures stored.Some? ==> r.0 == stored
  {
    if stored.Some? then (stored, stored.value) else (Some(newToken), newToken)
  }

  /** Asking again returns the same token and leaves the session as it was, whatever new token is offered. */
  lemma IssuedTokenIdempotent(stored: Option<string>, newToken: string, otherToken: string)
    ensures IssuedToken(IssuedToken(stored, newToken).0, otherToken) == IssuedToken(stored, newToken)
  {
  }

  datatype HttpMethod = GET | HEAD | OPTIONS | POST | PUT | PATCH | DELETE

  predicate SafeMethod(m: HttpMethod) {
    m.GET? || m.HEAD? || m.OPTIONS?
  }

  const LoginEndpoint := "auth.login"
  const LogoutEndpoint := "auth.logout"

  /** Requests that are never checked: safe methods, and the login and logout endpoints. */
  predicate CsrfExempt(m: HttpMethod, endpoint: Option<string>) {
    SafeMethod(m) || (endpoint.Some? && (endpoint.value == LoginEndpoint || endpoint.value == LogoutEndpoint))
  }

  /** The form field, or the `X-CSRF-Token` header when the field is missing or empty. */
  function SubmittedToken(formToken: Option<string>, headerToken: Option<string>): string {
    Or(formToken, Or(headerToken, ""))
  }

  /** Whether `validate_csrf` lets the request through (otherwise it aborts with 403). */
  predicate CsrfPasses(m: HttpMethod, endpoint: Option<string>, formToken: Option<string>,
                       headerToken: Option<string>, stored: Option<string>)
  {
    CsrfExempt(m, endpoint) || (SubmittedToken(formToken, headerToken) != "" && stored == Some(SubmittedToken(formToken, headerToken)))
  }

  /** A session that was never issued a token refuses every checked request. */
  lemma NoSessionTokenRefuses(m: HttpMethod, endpoint: Option<string>, formToken: Option<string>, headerToken: Option<string>)
    requires !CsrfExempt(m, endpoint)
    ensures !CsrfPasses(m, endpoint, formToken, headerToken, None)
  {
  }

  /** A non-empty form field decides alone: a wrong one is refused even beside a correct header. */
  lemma FormTokenTakesPrecedence(m: HttpMethod, endpoint: Option<string>, formToken: string, headerToken: Option<string>,
                                 stored: Option<string>)
    requires !CsrfExempt(m, endpoint) && formToken != ""
    ensures CsrfPasses(m, endpoint, Some(formToken), headerToken, stored) <==> stored == Some(formToken)
  {
  }

  /** A page rendered with the issued token submits a request the check accepts, by form or by header. */
  lemma IssuedTokenPasses(stored: Option<string>, newToken: string, m: HttpMethod, endpoint: Option<string>)
    requires newToken != "" && (stored.Some? ==> stored.value != "")
    ensures var (s, token) := IssuedToken(stored, newToken);
            CsrfPasses(m, endpoint, Some(token), None, s) && CsrfPasses(m, endpoint, None, Some(token), s)
  {
  }

  // ---------------------------------------------------------------- access decisions

  /** The session's user, when it names an existing active account (a zero id is falsy). */
  function CurrentUser(users: map<int, User>, sessionUserId: Option<int>): (r: Option<(int, User)>)
    ensures r.Some? <==> sessionUserId.Some? && sessionUserId.value != 0 && sessionUserId.value in users
                         && users[sessionUserId.value].isActive
    ensures r.Some? ==> r.value == (sessionUserId.value, users[sessionUserId.value])
  {
    if sessionUserId.None? || sessionUserId.value == 0 then None
    else if sessionUserId.value in users && users[sessionUserId.value].isActive then
      Some((sessionUserId.value, users[sessionUserId.value]))
    else None
  }

  datatype Gate = Proceed | RedirectToLogin(next: string) | Forbidden

  /** `login_required`: anyone signed in proceeds; otherwise back to the login page, remembering the path. */
  function LoginRequired(current: Option<(int, User)>, path: string): (g: Gate)
    ensures g == Proceed <==> current.Some?
    ensures g != Proceed ==> g == RedirectToLogin(path)
  {
    if current.None? then RedirectToLogin(path) else Proceed
  }

  /** `admin_required`: login first, then 403 for anyone but an admin. */
  function AdminRequired(current: Option<(int, User)>, path: string): (g: Gate)
    ensures g == Proceed <==> current.Some? && current.value.1.role == Admin
    ensures g == Forbidden <==> current.Some? && current.value.1.role != Admin
    ensures g.RedirectToLogin? <==> current.None?
    ensures g.RedirectToLogin? ==> g.next == path
  {
    if current.None? then RedirectToLogin(path)
    else if current.value.1.role != Admin then Forbidden
    else Proceed
  }

  /** A deactivated account is treated as signed out, even one with the admin role. */
  lemma DeactivatedIsSignedOut(users: map<int, User>, id: int, path: string)
    requires id in users && !users[id].isActive
    ensures AdminRequired(CurrentUser(users, Some(id)), path) == RedirectToLogin(path)
    ensures LoginRequired(CurrentUser(users, Some(id)), path) == RedirectToLogin(path)
  {
  }

  /** Passing the admin gate implies passing the login gate. */
  lemma AdminGateIsStricter(current: Option<(int, User)>, path: string)
    ensures AdminRequired(current, path) == Proceed ==> LoginRequired(current, path) == Proceed
  {
  }

  // ---------------------------------------------------------------- next-URL check

  const IndexUrl := "/"

  predicate IsUrlControl(c: char) {
    c as int <= 32
  }

  predicate IsUnsafeUrlChar(c: char) {
    c == '\t' || c == '\r' || c == '\n'
  }

  /** urlsplit first strips leading C0 controls and spaces. */
  function LStripControls(url: string): (r: string)
    ensures |r| <= |url|
    ensures r == [] || !IsUrlControl(r[0])
  {
    if url != [] && IsUrlControl(url[0]) then LStripControls(url[1..]) else url
  }

  function KeepSafe(c: char): bool {
    !IsUnsafeUrlChar(c)
  }

  /** ... then drops every tab, CR and LF. */
  function RemoveUnsafe(url: string): string {
    Where(url, KeepSafe)
  }

  predicate IsAsciiAlpha(c: char) {
    'a' <= c <= 'z' || 'A' <= c <= 'Z'
  }

  predicate IsSchemeChar(c: char) {
    IsAsciiAlpha(c) || '0' <= c <= '9' || c == '+' || c == '-' || c == '.'
  }

  /** The index of the first ':' in `u` at or after `i`, or `|u|`. */
  function ColonAt(u: string, i: nat): (j: nat)
    requires i <= |u|
    ensures i <= j <= |u| && (j < |u| ==> u[j] == ':')
    decreases |u| - i
  {
    if i == |u| || u[i] == ':' then i else ColonAt(u, i + 1)
  }

  /** urlsplit's scheme split: a letter, then scheme characters, up to the first ':'. */
  function SplitScheme(u: string): (r: (string, string)) {
    var i := ColonAt(u, 0);
    if 0 < i < |u| && IsAsciiAlpha(u[0]) && forall j :: 0 <= j < i ==> IsSchemeChar(u[j]) then
      (Lower(u[..i]), u[i + 1..])
    else ("", u)
  }

  /** The end of an authority starting at `i`: the first '/', '?' or '#', or `|u|`. */
  function AuthorityEnd(u: string, i: nat): (j: nat)
    requires i <= |u|
    ensures i <= j <= |u|
    decreases |u| - i
  {
    if i == |u| || u[i] == '/' || u[i] == '?' || u[i] == '#' then i else AuthorityEnd(u, i + 1)
  }

  /** urlsplit's netloc of what follows the scheme: the authority after a leading "//". */
  function NetlocOf(rest: string): string {
    if |rest| >= 2 && rest[0] == '/' && rest[1] == '/' then rest[2..AuthorityEnd(rest, 2)] else ""
  }

  function Cleaned(url: string): string {
    RemoveUnsafe(LStripControls(url))
  }

  function UrlScheme(url: string): string {
    SplitScheme(Cleaned(url)).0
  }

  function UrlNetloc(url: string): string {
    NetlocOf(SplitScheme(Cleaned(url)).1)
  }

  predicate StartsWithSlash(url: string) {
    url != [] && url[0] == '/'
  }

  /** The check as written: no netloc, no scheme, and a leading "/". */
  predicate SafeNextAsWritten(url: string) {
    UrlNetloc(url) == "" && UrlScheme(url) == "" && StartsWithSlash(url)
  }

  /** A URL with a leading "/" has no scheme; its netloc is whatever a leading "//" introduces once tabs and newlines are gone. */
  lemma SafeNextAsWrittenDecision(url: string)
    ensures SafeNextAsWritten(url) <==> StartsWithSlash(url) && NetlocOf(RemoveUnsafe(url)) == ""
  {
    if StartsWithSlash(url) {
      assert LStripControls(url) == url;
      var u := RemoveUnsafe(url);
      assert url == [url[0]] + url[1..];
      assert u == [url[0]] + Where(url[1..], KeepSafe);
      assert SplitScheme(u) == ("", u);
    }
  }

  /** How a browser reads a redirect target: tabs and newlines dropped, a backslash read as a slash. */
  function BrowserView(url: string): (r: string)
    ensures |r| == |RemoveUnsafe(url)|
  {
    var u := RemoveUnsafe(url);
    seq(|u|, i requires 0 <= i < |u| => if u[i] == '\\' then '/' else u[i])
  }

  /** A target the browser resolves on this site: one leading slash not followed by another. */
  predicate SiteLocal(url: string) {
    var v := BrowserView(url);
    |v| >= 1 && v[0] == '/' && (|v| == 1 || v[1] != '/')
  }

  /** A URL without tabs or newlines is left as it is. */
  lemma RemoveUnsafeKeepsClean(url: string)
    requires forall i :: 0 <= i < |url| ==> !IsUnsafeUrlChar(url[i])
    ensures RemoveUnsafe(url) == url
  {
    WhereAll(url, KeepSafe);
  }

  predicate PlainHost(host: string) {
    forall i :: 0 <= i < |host| ==> !IsUnsafeUrlChar(host[i])
  }

  lemma PrefixKeepsClean(prefix: string, host: string)
    requires PlainHost(prefix) && PlainHost(host)
    ensures RemoveUnsafe(prefix + host) == prefix + host
  {
    var url := prefix + host;
    forall i | 0 <= i < |url|
      ensures !IsUnsafeUrlChar(url[i])
    {
      if i >= |prefix| {
        assert url[i] == host[i - |prefix|];
      }
    }
    RemoveUnsafeKeepsClean(url);
  }

  /** The check as written refuses a protocol-relative URL naming a host. */
  lemma ProtocolRelativeRefused(host: string)
    requires PlainHost(host) && host != [] && host[0] != '/' && host[0] != '?' && host[0] != '#'
    ensures !SafeNextAsWritten("//" + host)
  {
    var url := "//" + host;
    SafeNextAsWrittenDecision(url);
    PrefixKeepsClean("//", host);
    assert url[2] == host[0];
    assert AuthorityEnd(url, 2) > 2;
  }

  /** The check as written lets through three slashes, or a slash and a backslash, before a host: targets a browser sends to that host. */
  lemma OpenRedirectAsWritten(host: string)
    requires PlainHost(host)
    ensures SafeNextAsWritten("///" + host) && !SiteLocal("///" + host)
    ensures SafeNextAsWritten("/\\" + host) && !SiteLocal("/\\" + host)
  {
    var slashes, backslash := "///" + host, "/\\" + host;
    SafeNextAsWrittenDecision(slashes);
    PrefixKeepsClean("///", host);
    assert AuthorityEnd(slashes, 2) == 2;
    SafeNextAsWrittenDecision(backslash);
    PrefixKeepsClean("/\\", host);
    assert BrowserView(backslash)[1] == '/';
  }

  /** The corrected check: the source's, plus refusing a second slash or a backslash after the first. */
  predicate SafeNext(url: string) {
    var u := RemoveUnsafe(url);
    SafeNextAsWritten(url) && !(|u| >= 2 && (u[1] == '/' || u[1] == '\\'))
  }

  /** The corrected check accepts exactly the targets the source accepts that also stay on this site. */
  lemma SafeNextIsSiteLocal(url: string)
    ensures SafeNext(url) <==> SafeNextAsWritten(url) && SiteLocal(url)
  {
    SafeNextAsWrittenDecision(url);
    if StartsWithSlash(url) {
      var u := RemoveUnsafe(url);
      assert url == [url[0]] + url[1..];
      assert u == [url[0]] + Where(url[1..], KeepSafe);
    }
  }

  /** `next` from the form, else from the query string, else the index page. */
  function NextTarget(formNext: Option<string>, argsNext: Option<string>): string {
    Or(formNext, Or(argsNext, IndexUrl))
  }

  /** Where a successful login lands: the chosen target when the check as written accepts it. */
  function LoginRedirect(formNext: Option<string>, argsNext: Option<string>): (r: string)
    ensures r == NextTarget(formNext, argsNext) || r == IndexUrl
  {
    var target := NextTarget(formNext, argsNext);
    if SafeNextAsWritten(target) then target else IndexUrl
  }

  /** The login redirect follows the target exactly when the check as written accepts it, and always lands on a URL that check accepts. */
  lemma LoginRedirectPassesCheck(formNext: Option<string>, argsNext: Option<string>)
    ensures LoginRedirect(formNext, argsNext) == NextTarget(formNext, argsNext)
            <==> SafeNextAsWritten(NextTarget(formNext, argsNext)) || NextTarget(formNext, argsNext) == IndexUrl
    ensures SafeNextAsWritten(LoginRedirect(formNext, argsNext))
  {
    SafeNextAsWrittenDecision(IndexUrl);
    assert RemoveUnsafe(IndexUrl) == IndexUrl;
  }

  /** The login redirect as written follows "///host" from the form, a target a browser sends to that host. */
  lemma LoginRedirectLeavesSite(host: string, argsNext: Option<string>)
    requires PlainHost(host)
    ensures LoginRedirect(Some("///" + host), argsNext) == "///" + host
    ensures !SiteLocal(LoginRedirect(Some("///" + host), argsNext))
  {
    OpenRedirectAsWritten(host);
  }

  /** Where a successful login lands once the check is corrected. */
  function LoginRedirectCorrected(formNext: Option<string>, argsNext: Option<string>): (r: string)
    ensures r == NextTarget(formNext, argsNext) || r == IndexUrl
  {
    var target := NextTarget(formNext, argsNext);
    if SafeNext(target) then target else IndexUrl
  }

  /** With the corrected check, a login keeps the requested target when it is safe and always lands on this site. */
  lemma LoginRedirectStaysOnSite(formNext: Option<string>, argsNext: Option<string>)
    ensures SafeNext(NextTarget(formNext, argsNext)) ==> LoginRedirectCorrected(formNext, argsNext) == NextTarget(formNext, argsNext)
    ensures SiteLocal(LoginRedirectCorrected(formNext, argsNext))
    ensures SafeNextAsWritten(LoginRedirectCorrected(formNext, argsNext))
  {
    var r := LoginRedirectCorrected(formNext, argsNext);
    SafeNextIsSiteLocal(r);
    if r == IndexUrl {
      SafeNextAsWrittenDecision(IndexUrl);
      assert RemoveUnsafe(IndexUrl) == IndexUrl;
    }
  }

  // ---------------------------------------------------------------- login and password forms

  datatype LoginOutcome = TooManyAttempts | InvalidCredentials | ChangePasswordFirst | RedirectTo(location: string)

  /**
   * A login attempt from `ip`. `authenticated` is the active account the submitted
   * credentials identify, if any; the limit is checked at `now` and the attempt
   * recorded at `recordedAt`.
   */
  method HandleLogin(limiter: RateLimiter, session: Session, ip: string, now: real, recordedAt: real,
                     authenticated: Option<(int, User)>, formNext: Option<string>, argsNext: Option<string>)
    returns (outcome: LoginOutcome)
    modifies limiter, session`userId, session`freshLogin
    ensures Limited(old(limiter.log), ip, now) ==>
              outcome == TooManyAttempts && limiter.log == Checked(old(limiter.log), ip, now)
              && session.userId == old(session.userId) && session.freshLogin == old(session.freshLogin)
    ensures !Limited(old(limiter.log), ip, now) ==>
              limiter.log == Recorded(Checked(old(limiter.log), ip, now), ip, recordedAt)
    ensures !Limited(old(limiter.log), ip, now) && authenticated.None? ==>
              outcome == InvalidCredentials
              && session.userId == old(session.userId) && session.freshLogin == old(session.freshLogin)
    ensures !Limited(old(limiter.log), ip, now) && authenticated.Some? ==>
              session.userId == Some(authenticated.value.0) && session.freshLogin
              && outcome == (if authenticated.value.1.mustChangePassword then ChangePasswordFirst
                             else RedirectTo(LoginRedirect(formNext, argsNext)))
  {
    var limited := limiter.IsRateLimited(ip, now);
    if limited {
      return TooManyAttempts;
    }
    limiter.RecordAttempt(ip, recordedAt);
    if authenticated.None? {
      return InvalidCredentials;
    }
    session.userId := Some(authenticated.value.0);
    session.freshLogin := true;
    if authenticated.value.1.mustChangePassword {
      return ChangePasswordFirst;
    }
    outcome := RedirectTo(LoginRedirect(formNext, argsNext));
  }

  datatype PasswordChange = WrongCurrent | Weak(error: PasswordError) | Mismatch | Changed(password: string)

  /**
   * The change-password form. `currentMatches` is whether the submitted current
   * password matches the stored hash; it is not asked for while a change is forced.
   */
  function ChangePasswordDecision(mustChange: bool, currentMatches: bool, newPassword: string, confirm: string)
    : (r: PasswordChange)
    ensures r.Changed? <==> (mustChange || currentMatches) && ValidatePassword(Strip(newPassword)).None?
                            && Strip(newPassword) == Strip(confirm)
    ensures r.Changed? ==> r.password == Strip(newPassword)
    ensures r == WrongCurrent <==> !mustChange && !currentMatches
  {
    var newPass := Strip(newPassword);
    if !mustChange && !currentMatches then WrongCurrent
    else if ValidatePassword(newPass).Some? then Weak(ValidatePassword(newPass).value)
    else if newPass != Strip(confirm) then Mismatch
    else Changed(newPass)
  }

  /** While a change is forced the current password plays no part. */
  lemma ForcedChangeSkipsCurrent(newPassword: string, confirm: string)
    ensures ChangePasswordDecision(true, false, newPassword, confirm) == ChangePasswordDecision(true, true, newPassword, confirm)
  {
  }

  datatype SetupError = MissingField | WeakPassword(error: PasswordError) | PasswordMismatch

  /** The first-run form: every field present, then the password policy, then the confirmation. */
  function SetupFormError(username: string, displayName: string, password: string, confirm: string)
    : (r: Option<SetupError>)
    ensures r.None? <==> Strip(username) != "" && Strip(displayName) != "" && Strip(password) != ""
                         && ValidatePassword(Strip(password)).None? && Strip(password) == Strip(confirm)
  {
    var pw := Strip(password);
    if Strip(username) == "" || Strip(displayName) == "" || pw == "" then Some(MissingField)
    else if ValidatePassword(pw).Some? then Some(WeakPassword(ValidatePassword(pw).value))
    else if pw != Strip(confirm) then Some(PasswordMismatch)
    else None
  }

  /** An all-whitespace field is as missing as an empty one. */
  lemma BlankSetupFieldMissing(username: string, displayName: string, password: string, confirm: string)
    requires Blank(username) || Blank(displayName)
    ensures SetupFormError(username, displayName, password, confirm) == Some(MissingField)
  {
    StripEmptyIffBlank(username);
    StripEmptyIffBlank(displayName);
  }
}
