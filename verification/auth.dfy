/** The OAuth token cache of `internal/auth/auth.go`, as a sequential state
    machine over `(accessToken, refreshToken, expiresAt)`. Times are
    nanosecond counts; every reading of the clock is a parameter, and the
    token endpoint is the `post` oracle. Its error covers a transport
    failure, a 4xx or 5xx reply (the shared client turns those into errors)
    and a body that does not decode. The locks only serialise callers and
    are not modelled. */
module Auth {
  import opened Wrappers

  /** One second, in nanoseconds (Go's `time.Second`). */
  const Second: int := 1_000_000_000

  /** A token is refreshed this long before it actually expires. */
  const RefreshSkew: int := 30 * Second

  /** The `tokenManager` fields that change. A fresh manager holds `""`,
      `""` and the zero time. */
  datatype TokenState = TokenState(accessToken: string, refreshToken: string, expiresAt: int)

  /** `config.Config`. */
  datatype Config = Config(nicoClientId: string, nicoRefreshToken: string)

  /** The token endpoint's answer (`OAuthResponse`). */
  datatype OAuthResponse = OAuthResponse(
    accessToken: string,
    refreshToken: string,
    idToken: string,
    scope: string,
    expiresIn: int,
    tokenType: string)

  /** The form posted to the token endpoint. */
  datatype RefreshRequest = RefreshRequest(
    clientId: string,
    redirectUri: string,
    grantType: string,
    refreshToken: string)

  /** What a call returns, the state afterwards, and the request it posted,
      if any. */
  datatype Answer = Answer(state: TokenState, token: Result<string, string>, sent: Option<RefreshRequest>)

  /** `isTokenValid`: a non-empty token that stays good for more than the
      30-second skew after `now`. */
  predicate IsTokenValid(s: TokenState, now: int) {
    s.accessToken != "" && now + RefreshSkew < s.expiresAt
  }

  /** A token valid at some moment was valid at every earlier one. */
  lemma ValidEarlier(s: TokenState, earlier: int, later: int)
    requires earlier <= later && IsTokenValid(s, later)
    ensures IsTokenValid(s, earlier)
  {
  }

  /** `getRefreshToken`: the stored refresh token, else the configured one. */
  function GetRefreshToken(s: TokenState, cfg: Config): (t: string)
    ensures s.refreshToken != "" ==> t == s.refreshToken
    ensures s.refreshToken == "" ==> t == cfg.nicoRefreshToken
  {
    if s.refreshToken != "" then s.refreshToken else cfg.nicoRefreshToken
  }

  /** `getTokenExpiry`. */
  function GetTokenExpiry(s: TokenState): int {
    s.expiresAt
  }

  /** `time.Duration(n) * time.Second`: a product of two 64-bit integers,
      which wraps around. */
  function SecondsToDuration(n: int): (d: int)
    ensures -0x8000_0000_0000_0000 <= d < 0x8000_0000_0000_0000
    ensures (d - n * Second) % 0x1_0000_0000_0000_0000 == 0
  {
    var x := (n * Second + 0x8000_0000_0000_0000) % 0x1_0000_0000_0000_0000;
    x - 0x8000_0000_0000_0000
  }

  /** Lifetimes up to about 292 years convert without wrapping. */
  lemma SecondsToDurationExact(n: int)
    requires 0 <= n && n * Second < 0x8000_0000_0000_0000
    ensures SecondsToDuration(n) == n * Second
  {
  }

  /** The redirect address registered for the platform's domain. */
  function RedirectUri(domain: string): string {
    "https://" + domain + "/login/login-redirect"
  }

  /** The refresh form: the configured client id, the platform's redirect
      address, and the refresh token to spend. */
  function RefreshForm(s: TokenState, cfg: Config, domain: string): (req: RefreshRequest)
    ensures req.clientId == cfg.nicoClientId && req.grantType == "refresh_token"
    ensures req.refreshToken == GetRefreshToken(s, cfg)
  {
    RefreshRequest(cfg.nicoClientId, RedirectUri(domain), "refresh_token",
                   if s.refreshToken != "" then s.refreshToken else cfg.nicoRefreshToken)
  }

  /** `refreshOAuthToken`, with `now` the clock at the re-check and
      `responseTime` the clock when the answer arrived. */
  function RefreshOAuthToken(s: TokenState, cfg: Config, domain: string,
                             post: RefreshRequest -> Result<OAuthResponse, string>,
                             now: int, responseTime: int): (a: Answer)
    ensures IsTokenValid(s, now) ==> a.state == s && a.token == Ok(s.accessToken) && a.sent.None?
    ensures !IsTokenValid(s, now) ==> a.sent.Some?
    ensures a.sent.Some? ==>
      var req := a.sent.value;
      && req.refreshToken == GetRefreshToken(s, cfg)
      && req.clientId == cfg.nicoClientId && req.grantType == "refresh_token"
      && (post(req).Err? ==> a.state == s && a.token == Err(post(req).error))
      && (post(req).Ok? ==>
            var resp := post(req).value;
            && a.state.accessToken == resp.accessToken
            && a.state.refreshToken == resp.refreshToken
            && a.state.expiresAt == responseTime + SecondsToDuration(resp.expiresIn)
            && a.token == Ok(resp.accessToken))
  {
    if IsTokenValid(s, now) then Answer(s, Ok(s.accessToken), None)
    else
      var req := RefreshForm(s, cfg, domain);
      match post(req)
      case Err(e) => Answer(s, Err(e), Some(req))
      case Ok(resp) =>
        var s' := TokenState(resp.accessToken, resp.refreshToken,
                             responseTime + SecondsToDuration(resp.expiresIn));
        Answer(s', Ok(s'.accessToken), Some(req))
  }

  /** `getToken`: `checkTime` is the clock at the first check, `now` at the
      re-check inside the refresh, `responseTime` when the answer arrived. */
  function GetToken(s: TokenState, cfg: Config, domain: string,
                    post: RefreshRequest -> Result<OAuthResponse, string>,
                    checkTime: int, now: int, responseTime: int): (a: Answer)
    ensures IsTokenValid(s, checkTime) ==> a == Answer(s, Ok(s.accessToken), None)
    ensures !IsTokenValid(s, checkTime) ==> a == RefreshOAuthToken(s, cfg, domain, post, now, responseTime)
  {
    if IsTokenValid(s, checkTime) then Answer(s, Ok(s.accessToken), None)
    else RefreshOAuthToken(s, cfg, domain, post, now, responseTime)
  }

  /** Used sequentially, with the clock running forward, the re-check
      inside the refresh never finds a valid token: a call that misses the
      cache always posts the form. */
  lemma SequentialRecheckPosts(s: TokenState, cfg: Config, domain: string,
                               post: RefreshRequest -> Result<OAuthResponse, string>,
                               checkTime: int, now: int, responseTime: int)
    requires checkTime <= now && !IsTokenValid(s, checkTime)
    ensures GetToken(s, cfg, domain, post, checkTime, now, responseTime).sent
            == Some(RefreshForm(s, cfg, domain))
  {
    if IsTokenValid(s, now) {
      ValidEarlier(s, checkTime, now);
    }
  }

  /** A failed refresh changes nothing: the next call starts from the same
      state and spends the same refresh token. */
  lemma FailedRefreshKeepsState(s: TokenState, cfg: Config, domain: string,
                                post: RefreshRequest -> Result<OAuthResponse, string>,
                                checkTime: int, now: int, responseTime: int)
    requires var a := GetToken(s, cfg, domain, post, checkTime, now, responseTime); a.token.Err?
    ensures var a := GetToken(s, cfg, domain, post, checkTime, now, responseTime);
      a.state == s && a.sent.Some? && post(a.sent.value).Err?
      && GetRefreshToken(a.state, cfg) == GetRefreshToken(s, cfg)
  {
  }

  /** After a successful refresh the next refresh spends the refresh token
      the endpoint handed out, unless that one was empty. */
  lemma RefreshRotatesRefreshToken(s: TokenState, cfg: Config, domain: string,
                                   post: RefreshRequest -> Result<OAuthResponse, string>,
                                   checkTime: int, now: int, responseTime: int)
    requires var a := GetToken(s, cfg, domain, post, checkTime, now, responseTime);
      a.sent.Some? && post(a.sent.value).Ok? && post(a.sent.value).value.refreshToken != ""
    ensures var a := GetToken(s, cfg, domain, post, checkTime, now, responseTime);
      GetRefreshToken(a.state, cfg) == post(a.sent.value).value.refreshToken
      && GetTokenExpiry(a.state) == responseTime + SecondsToDuration(post(a.sent.value).value.expiresIn)
  {
  }

  /** Two `GetToken` calls, the second while the token from the first is
      still valid, return the same token, and the second posts nothing. */
  lemma SameTokenWithinWindow(s: TokenState, cfg: Config, domain: string,
                              post: RefreshRequest -> Result<OAuthResponse, string>,
                              t1: int, n1: int, r1: int, t2: int, n2: int, r2: int)
    requires var a := GetToken(s, cfg, domain, post, t1, n1, r1);
      a.token.Ok? && IsTokenValid(a.state, t2)
    ensures var a := GetToken(s, cfg, domain, post, t1, n1, r1);
      var b := GetToken(a.state, cfg, domain, post, t2, n2, r2);
      b.token == a.token && b.state == a.state && b.sent.None?
  {
  }

  /** A refreshed token whose lifetime exceeds the skew plus the time
      elapsed since the answer is served from the cache. */
  lemma FreshTokenIsCached(s: TokenState, cfg: Config, domain: string,
                           post: RefreshRequest -> Result<OAuthResponse, string>,
                           checkTime: int, now: int, responseTime: int, later: int)
    requires var a := GetToken(s, cfg, domain, post, checkTime, now, responseTime);
      a.sent.Some? && post(a.sent.value).Ok?
    requires var resp := post(GetToken(s, cfg, domain, post, checkTime, now, responseTime).sent.value).value;
      && resp.accessToken != ""
      && 0 <= resp.expiresIn && resp.expiresIn * Second < 0x8000_0000_0000_0000
      && later + RefreshSkew < responseTime + resp.expiresIn * Second
    ensures var a := GetToken(s, cfg, domain, post, checkTime, now, responseTime);
      IsTokenValid(a.state, later)
  {
    var a := GetToken(s, cfg, domain, post, checkTime, now, responseTime);
    SecondsToDurationExact(post(a.sent.value).value.expiresIn);
  }
}
