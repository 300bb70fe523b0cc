/** `AuthManager` from `stakeapi/auth.py`: the access token, the session
    cookie and an optional expiry time, and the headers and cookies rendered
    from them. The clock is an explicit `now` argument (seconds). The two
    curl helpers of the same class are in the `Curl` module. */
module Auth {
  import opened Wrappers

  /** The three attributes an `AuthManager` holds. */
  datatype AuthManager = AuthManager(
    accessToken: Option<string>,
    sessionCookie: Option<string>,
    tokenExpiresAt: Option<real>)

  const AccessTokenHeader: string := "X-Access-Token"
  const SessionCookieName: string := "session"

  /** A token counts as expired this many seconds before its expiry time. */
  const ExpiryMarginSeconds: real := 300.0

  /** Python truthiness of an optional string: present and not empty. */
  predicate IsSet(value: Option<string>) {
    value.Some? && value.value != ""
  }

  /** `AuthManager(access_token, session_cookie)`: no expiry is recorded. */
  function NewAuthManager(accessToken: Option<string>, sessionCookie: Option<string>): (m: AuthManager)
    ensures m.accessToken == accessToken && m.sessionCookie == sessionCookie
    ensures forall now :: !IsTokenExpired(m, now)
  {
    AuthManager(accessToken, sessionCookie, None)
  }

  /** `get_auth_headers`: the token under `X-Access-Token` when it is set. */
  function GetAuthHeaders(m: AuthManager): (headers: map<string, string>)
    ensures headers.Keys <= {AccessTokenHeader}
    ensures AccessTokenHeader in headers <==> IsSet(m.accessToken)
    ensures AccessTokenHeader in headers ==> headers[AccessTokenHeader] == m.accessToken.value
  {
    if IsSet(m.accessToken) then map[AccessTokenHeader := m.accessToken.value] else map[]
  }

  /** `get_cookies`: the session cookie under `session` when it is set. */
  function GetCookies(m: AuthManager): (cookies: map<string, string>)
    ensures cookies.Keys <= {SessionCookieName}
    ensures SessionCookieName in cookies <==> IsSet(m.sessionCookie)
    ensures SessionCookieName in cookies ==> cookies[SessionCookieName] == m.sessionCookie.value
  {
    if IsSet(m.sessionCookie) then map[SessionCookieName := m.sessionCookie.value] else map[]
  }

  /** `set_access_token`: replaces the token; a truthy `expires_in` (present
      and non-zero) records the expiry `now + expires_in`, otherwise the
      previous expiry stays. The session cookie is not touched. */
  function SetAccessToken(m: AuthManager, token: string, expiresIn: Option<int>, now: real): (m': AuthManager)
    ensures m'.accessToken == Some(token)
    ensures m'.sessionCookie == m.sessionCookie
    ensures expiresIn.Some? && expiresIn.value != 0 ==> m'.tokenExpiresAt == Some(now + expiresIn.value as real)
    ensures expiresIn.None? || expiresIn.value == 0 ==> m'.tokenExpiresAt == m.tokenExpiresAt
  {
    var expiry := if expiresIn.Some? && expiresIn.value != 0 then Some(now + expiresIn.value as real) else m.tokenExpiresAt;
    m.(accessToken := Some(token), tokenExpiresAt := expiry)
  }

  /** `set_session_cookie`: replaces the cookie and nothing else. */
  function SetSessionCookie(m: AuthManager, cookie: string): (m': AuthManager)
    ensures m'.sessionCookie == Some(cookie)
    ensures m'.accessToken == m.accessToken && m'.tokenExpiresAt == m.tokenExpiresAt
  {
    m.(sessionCookie := Some(cookie))
  }

  /** `is_token_expired`: false while no expiry is recorded (an expiry of 0
      is falsy and counts as none), otherwise true from 300 seconds before
      the expiry on. */
  function IsTokenExpired(m: AuthManager, now: real): (expired: bool)
    ensures m.tokenExpiresAt.None? || m.tokenExpiresAt == Some(0.0) ==> !expired
    ensures m.tokenExpiresAt.Some? && m.tokenExpiresAt != Some(0.0)
      ==> (expired <==> now >= m.tokenExpiresAt.value - ExpiryMarginSeconds)
  {
    match m.tokenExpiresAt
    case None => false
    case Some(expiresAt) => expiresAt != 0.0 && now >= expiresAt - ExpiryMarginSeconds
  }

  /** `clear_tokens`: forgets token, cookie and expiry. */
  function ClearTokens(m: AuthManager): (m': AuthManager)
    ensures m'.accessToken.None? && m'.sessionCookie.None? && m'.tokenExpiresAt.None?
  {
    AuthManager(None, None, None)
  }

  /** Once expired, a token stays expired as time goes on. */
  lemma TokenExpiryIsMonotone(m: AuthManager, earlier: real, later: real)
    requires earlier <= later
    ensures IsTokenExpired(m, earlier) ==> IsTokenExpired(m, later)
  {
  }

  /** After `set_access_token` with a non-zero lifetime the token is expired
      exactly from `now + expires_in - 300` on (unless that expiry is 0,
      which Python treats as unset); a lifetime of at most 300 seconds is
      therefore expired at once. */
  lemma SetAccessTokenExpiry(m: AuthManager, token: string, expiresIn: int, now: real, at: real)
    requires expiresIn != 0
    requires now + expiresIn as real != 0.0
    ensures IsTokenExpired(SetAccessToken(m, token, Some(expiresIn), now), at)
      <==> at >= now + expiresIn as real - ExpiryMarginSeconds
    ensures expiresIn as real <= ExpiryMarginSeconds ==> IsTokenExpired(SetAccessToken(m, token, Some(expiresIn), now), now)
  {
  }

  /** A token set without a lifetime keeps whatever expiry status the old one had. */
  lemma SetAccessTokenKeepsExpiry(m: AuthManager, token: string, now: real, at: real)
    ensures IsTokenExpired(SetAccessToken(m, token, None, now), at) == IsTokenExpired(m, at)
    ensures IsTokenExpired(SetAccessToken(m, token, Some(0), now), at) == IsTokenExpired(m, at)
  {
  }

  /** Setting the token changes the headers only and setting the cookie
      changes the cookies only; each renders the new value when non-empty. */
  lemma SettersAreIndependent(m: AuthManager, token: string, cookie: string, expiresIn: Option<int>, now: real)
    ensures GetCookies(SetAccessToken(m, token, expiresIn, now)) == GetCookies(m)
    ensures GetAuthHeaders(SetAccessToken(m, token, expiresIn, now))
      == (if token != "" then map[AccessTokenHeader := token] else map[])
    ensures GetAuthHeaders(SetSessionCookie(m, cookie)) == GetAuthHeaders(m)
    ensures GetCookies(SetSessionCookie(m, cookie))
      == (if cookie != "" then map[SessionCookieName := cookie] else map[])
  {
  }

  /** Clearing is idempotent and leaves no header, no cookie and no expiry. */
  lemma ClearTokensEffect(m: AuthManager, now: real)
    ensures ClearTokens(ClearTokens(m)) == ClearTokens(m)
    ensures GetAuthHeaders(ClearTokens(m)) == map[]
    ensures GetCookies(ClearTokens(m)) == map[]
    ensures !IsTokenExpired(ClearTokens(m), now)
  {
  }
}
