/**
 * The session resolver. A request is authenticated by the signed session cookie, whose
 * value must be a DID; the OAuth session for that DID is then restored. The result is
 * cached on the request, and the cookie is deleted when its value is not a DID or the OAuth
 * session is no longer valid.
 *
 * The DID syntax check, the OAuth client's configuration and its `restore` call are
 * parameters.
 */
module Auth {
  import opened Wrappers
  import SignedCookie

  const SESSION_COOKIE: string := "tumbsky_session"

  /** The errors `restore` can raise: the four that mean the session is gone, and any
      other. */
  datatype OAuthError =
    | TokenRefreshError
    | TokenInvalidError
    | TokenRevokedError
    | AuthMethodUnsatisfiableError
    | OtherError(message: string)

  /** The error means the stored OAuth session can no longer be used: every error except an
      unrelated one. */
  function IsSessionInvalidError(e: OAuthError): (r: bool)
    ensures r <==> !e.OtherError?
  {
    match e
    case TokenRefreshError => true
    case TokenInvalidError => true
    case TokenRevokedError => true
    case AuthMethodUnsatisfiableError => true
    case OtherError(_) => false
  }

  /** A restored OAuth session, opaque apart from the DID it belongs to. */
  datatype OAuthSession = OAuthSession(did: string, handle: string)

  /** An API client whose requests are authorised by `handler`. */
  datatype Client = Client(handler: OAuthSession)

  datatype Session = Session(did: string)

  datatype AuthContext = AuthContext(session: Session, client: Client)

  datatype RestoreResult = Restored(session: OAuthSession) | RestoreFailed(error: OAuthError)

  /** What the resolver consults besides the request: the cookie crypto, the DID syntax
      check, whether OAuth is configured, and the outcome of restoring each DID. */
  datatype AuthDeps = AuthDeps(
    env: SignedCookie.Env,
    crypto: SignedCookie.Crypto,
    isDid: string -> bool,
    oauthConfigured: bool,
    restore: string -> RestoreResult)

  /** How resolution fails: an HTTP error, the exception of a wrong-length signature, or a
      restore error passed on unchanged. */
  datatype AuthFailure =
    | HttpError(status: int, message: string)
    | SignatureLengthMismatch
    | Rethrown(error: OAuthError)

  /** The outcome of resolving a request that has no cached context, and whether the
      session cookie is deleted on the way. */
  datatype Resolution = Resolution(outcome: Result<AuthContext, AuthFailure>, deleteCookie: bool)

  const NotSignedIn: AuthFailure := HttpError(401, "not signed in")
  const SessionExpired: AuthFailure := HttpError(401, "session expired")
  const NotConfigured: AuthFailure := HttpError(503, "OAuth not configured - requires https URL")

  /** The decision procedure of `requireAuth` after the cache check. */
  function Resolve(deps: AuthDeps, cookies: map<string, string>): (r: Resolution)
    ensures r.outcome.Success? ==>
              var did := r.outcome.value.session.did;
              && SignedCookie.GetSignedCookie(deps.env, deps.crypto, cookies, SESSION_COOKIE)
                 == SignedCookie.Verified(did)
              && did != "" && deps.isDid(did) && deps.oauthConfigured
              && deps.restore(did).Restored?
              && r.outcome.value.client == Client(deps.restore(did).session)
              && !r.deleteCookie
    ensures r.deleteCookie ==> r.outcome == Failure(NotSignedIn) || r.outcome == Failure(SessionExpired)
    ensures r.outcome == Failure(NotConfigured) ==> !deps.oauthConfigured
    ensures r.outcome.Failure? && r.outcome.error.Rethrown? ==>
              !IsSessionInvalidError(r.outcome.error.error) && !r.deleteCookie
  {
    match SignedCookie.GetSignedCookie(deps.env, deps.crypto, cookies, SESSION_COOKIE)
    case Throws => Resolution(Failure(SignatureLengthMismatch), false)
    case Rejected => Resolution(Failure(NotSignedIn), false)
    case Verified(did) =>
      if did == "" then Resolution(Failure(NotSignedIn), false)
      else if !deps.isDid(did) then Resolution(Failure(NotSignedIn), true)
      else if !deps.oauthConfigured then Resolution(Failure(NotConfigured), false)
      else
        match deps.restore(did)
        case Restored(session) =>
          Resolution(Success(AuthContext(Session(did), Client(session))), false)
        case RestoreFailed(e) =>
          if IsSessionInvalidError(e) then Resolution(Failure(SessionExpired), true)
          else Resolution(Failure(Rethrown(e)), false)
  }

  /** The request: its per-request cache and its cookie jar. */
  class RequestEvent {
    var auth: Option<AuthContext>
    var cookies: map<string, string>

    constructor (cookies: map<string, string>)
      ensures this.auth == None && this.cookies == cookies
    {
      this.auth := None;
      this.cookies := cookies;
    }
  }

  /** What `requireAuth` returns for a request whose cache held `cached` and whose jar held
      `cookies`: the cached context when there is one, otherwise the resolver's outcome. A
      freshly resolved context always comes from a genuinely signed session cookie. */
  function Authenticate(cached: Option<AuthContext>, deps: AuthDeps, cookies: map<string, string>)
    : (r: Result<AuthContext, AuthFailure>)
    ensures cached.Some? ==> r == Success(cached.value)
    ensures r.Failure? ==> cached.None?
    ensures cached.None? && r.Success? ==>
              var did := r.value.session.did;
              && did != "" && deps.isDid(did)
              && SESSION_COOKIE in cookies
              && exists sig :: SignedCookie.SEPARATOR !in sig &&
                               cookies[SESSION_COOKIE] == did + [SignedCookie.SEPARATOR] + sig &&
                               SignedCookie.Authentic(deps.env, deps.crypto, did, sig)
  {
    if cached.Some? then Success(cached.value)
    else
      var res := Resolve(deps, cookies).outcome;
      if res.Success? then AuthenticatedByGenuineCookie(deps, cookies); res else res
  }

  /** The jar after `requireAuth`: the session cookie is dropped exactly when the request
      had no cached context and resolution deleted it; nothing else changes. */
  function CookiesAfter(cached: Option<AuthContext>, deps: AuthDeps, cookies: map<string, string>)
    : (r: map<string, string>)
    ensures r.Keys <= cookies.Keys
    ensures forall k :: k in r ==> r[k] == cookies[k]
    ensures forall k :: k in cookies && k != SESSION_COOKIE ==> k in r
    ensures SESSION_COOKIE in cookies && SESSION_COOKIE !in r <==>
              SESSION_COOKIE in cookies && cached.None? && Resolve(deps, cookies).deleteCookie
  {
    if cached.None? && Resolve(deps, cookies).deleteCookie then cookies - {SESSION_COOKIE}
    else cookies
  }

  /** `requireAuth`: a cached context is returned untouched; otherwise the request is
      resolved, a successful context is cached, and the cookie is deleted when resolution
      says so. */
  method RequireAuth(ev: RequestEvent, deps: AuthDeps) returns (r: Result<AuthContext, AuthFailure>)
    modifies ev
    ensures r == Authenticate(old(ev.auth), deps, old(ev.cookies))
    ensures ev.auth == (if r.Success? then Some(r.value) else None)
    ensures ev.cookies == CookiesAfter(old(ev.auth), deps, old(ev.cookies))
    ensures old(ev.auth).Some? ==> r == Success(old(ev.auth).value) && unchanged(ev)
    ensures old(ev.auth).None? ==>
              var res := Resolve(deps, old(ev.cookies));
              && r == res.outcome
              && ev.auth == (if r.Success? then Some(r.value) else None)
              && ev.cookies == (if res.deleteCookie then old(ev.cookies) - {SESSION_COOKIE}
                                else old(ev.cookies))
  {
    if ev.auth.Some? {
      return Success(ev.auth.value);
    }
    var res := Resolve(deps, ev.cookies);
    if res.deleteCookie {
      ev.cookies := ev.cookies - {SESSION_COOKIE};
    }
    r := res.outcome;
    if r.Success? {
      ev.auth := Some(r.value);
    }
  }

  /** The cookie is deleted exactly when its value is not a DID, or when restoring the DID's
      session failed with a session-invalid error. */
  lemma DeleteCookieIff(deps: AuthDeps, cookies: map<string, string>)
    ensures Resolve(deps, cookies).deleteCookie <==>
              match SignedCookie.GetSignedCookie(deps.env, deps.crypto, cookies, SESSION_COOKIE)
              case Verified(did) =>
                did != "" &&
                (!deps.isDid(did) ||
                 (deps.oauthConfigured && deps.restore(did).RestoreFailed? &&
                  IsSessionInvalidError(deps.restore(did).error)))
              case _ => false
  {
  }

  /** Authentication succeeds only for a cookie that holds the DID followed by an authentic
      signature of it. */
  lemma AuthenticatedByGenuineCookie(deps: AuthDeps, cookies: map<string, string>)
    requires Resolve(deps, cookies).outcome.Success?
    ensures var did := Resolve(deps, cookies).outcome.value.session.did;
            SESSION_COOKIE in cookies &&
            exists sig :: SignedCookie.SEPARATOR !in sig &&
                          cookies[SESSION_COOKIE] == did + [SignedCookie.SEPARATOR] + sig &&
                          SignedCookie.Authentic(deps.env, deps.crypto, did, sig)
  {
    var did := Resolve(deps, cookies).outcome.value.session.did;
    SignedCookie.VerifiedIff(deps.env, deps.crypto, cookies, SESSION_COOKIE, did);
  }

  /** The resolver's outcome for each verdict on the session cookie and each branch after
      it. The cases cover every request, so each outcome also identifies its case. */
  lemma ResolveCases(deps: AuthDeps, cookies: map<string, string>)
    ensures var v := SignedCookie.GetSignedCookie(deps.env, deps.crypto, cookies, SESSION_COOKIE);
            var r := Resolve(deps, cookies);
            && (v.Throws? ==> r == Resolution(Failure(SignatureLengthMismatch), false))
            && (v.Rejected? || v == SignedCookie.Verified("") ==>
                  r == Resolution(Failure(NotSignedIn), false))
            && (v.Verified? && v.value != "" && !deps.isDid(v.value) ==>
                  r == Resolution(Failure(NotSignedIn), true))
            && (v.Verified? && v.value != "" && deps.isDid(v.value) && !deps.oauthConfigured ==>
                  r == Resolution(Failure(NotConfigured), false))
            && (v.Verified? && v.value != "" && deps.isDid(v.value) && deps.oauthConfigured ==>
                  match deps.restore(v.value)
                  case Restored(s) =>
                    r == Resolution(Success(AuthContext(Session(v.value), Client(s))), false)
                  case RestoreFailed(e) =>
                    if IsSessionInvalidError(e) then r == Resolution(Failure(SessionExpired), true)
                    else r == Resolution(Failure(Rethrown(e)), false))
  {
  }

  /** The converse reading: each failure names the one branch that produces it. */
  lemma ResolveFailureIdentifiesCase(deps: AuthDeps, cookies: map<string, string>)
    ensures var v := SignedCookie.GetSignedCookie(deps.env, deps.crypto, cookies, SESSION_COOKIE);
            var r := Resolve(deps, cookies).outcome;
            && (r == Failure(NotConfigured) <==>
                  v.Verified? && v.value != "" && deps.isDid(v.value) && !deps.oauthConfigured)
            && (r == Failure(SessionExpired) <==>
                  v.Verified? && v.value != "" && deps.isDid(v.value) && deps.oauthConfigured &&
                  deps.restore(v.value).RestoreFailed? &&
                  IsSessionInvalidError(deps.restore(v.value).error))
            && (r == Failure(SignatureLengthMismatch) <==> v.Throws?)
            && (forall e :: r == Failure(Rethrown(e)) <==>
                  v.Verified? && v.value != "" && deps.isDid(v.value) && deps.oauthConfigured &&
                  deps.restore(v.value) == RestoreFailed(e) && !IsSessionInvalidError(e))
            && (r == Failure(NotSignedIn) <==>
                  v.Rejected? || v == SignedCookie.Verified("") ||
                  (v.Verified? && v.value != "" && !deps.isDid(v.value)))
  {
  }

  /** A forged session cookie, whose signature decodes to a MAC of the right length but the
      wrong bytes, gets the 401 "not signed in" and keeps the cookie; it never reaches the
      length-mismatch exception. */
  lemma ForgedCookieNotSignedIn(deps: AuthDeps, cookies: map<string, string>, v: string,
                                sig: string)
    requires SESSION_COOKIE in cookies && cookies[SESSION_COOKIE] == v + [SignedCookie.SEPARATOR] + sig
    requires SignedCookie.SEPARATOR !in sig
    requires SignedCookie.HmacSha256(deps.env, deps.crypto, v).Success?
    requires deps.crypto.fromBase64Url(sig).Some?
    requires var got := deps.crypto.fromBase64Url(sig).value;
             var expected := SignedCookie.HmacSha256(deps.env, deps.crypto, v).value;
             |got| == |expected| && got != expected
    ensures Resolve(deps, cookies) == Resolution(Failure(NotSignedIn), false)
  {
    SignedCookie.VerdictOfSplit(deps.env, deps.crypto, cookies, SESSION_COOKIE, v, sig);
  }

  /** Once the cookie has been deleted, the same request jar resolves to "not signed in"
      and no further deletion. */
  lemma DeletedCookieNotSignedIn(deps: AuthDeps, cookies: map<string, string>)
    requires Resolve(deps, cookies).deleteCookie
    ensures Resolve(deps, cookies - {SESSION_COOKIE}) == Resolution(Failure(NotSignedIn), false)
  {
  }
}
