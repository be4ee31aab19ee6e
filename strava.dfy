/**
 * The Rust program (src/main.rs): the configuration read from the
 * environment, the authorization URL it prints, and the token refresh it
 * performs, with the environment a map and the HTTP exchange, the URL
 * parser and the JSON decoder passed in as functions.
 */
module Strava {
  import opened Wrappers
  import opened Numerals
  import opened StravaApi
  import PercentEncoding
  import Query

  const CLIENT_ID_VAR := "STRAVA_CLIENT_ID"
  const CLIENT_SECRET_VAR := "STRAVA_CLIENT_SECRET"
  const REFRESH_TOKEN_VAR := "STRAVA_REFRESH_TOKEN"
  const REDIRECT_URI_VAR := "STRAVA_REDIRECT_URI"

  /** The redirect URI used when the environment names none. */
  const DEFAULT_REDIRECT_URI := "http://localhost/"

  /** The API base every loaded configuration carries. */
  const STRAVA_URL := "https://www.strava.com"

  const ERR_CLIENT_ID_NOT_SET := "STRAVA_CLIENT_ID not set"
  const ERR_CLIENT_ID_INVALID := "Invalid STRAVA_CLIENT_ID"
  const ERR_CLIENT_SECRET_NOT_SET := "STRAVA_CLIENT_SECRET not set"

  /** The process environment: variable names to values. A variable that is not valid Unicode counts as unset. */
  type Env = map<string, string>

  datatype StravaConfig = StravaConfig(
    clientId: U32,
    clientSecret: string,
    refreshToken: Option<string>,
    redirectUri: string,
    accessToken: Option<string>,
    stravaUrl: string)

  /** The JSON body of a successful refresh. */
  datatype RefreshResponse = RefreshResponse(
    refreshToken: string,
    accessToken: string,
    tokenType: string,
    expiresIn: U32)

  /**
   * `load_env_variables`: the client id must be set and parse as a `u32`,
   * then the secret must be set; the refresh token is optional and the
   * redirect URI has a default. The first missing or invalid setting, in
   * that order, decides the error.
   */
  function LoadEnvVariables(env: Env): (r: Result<StravaConfig, string>)
    ensures r.Success? <==>
      CLIENT_ID_VAR in env && ParseU32(env[CLIENT_ID_VAR]).Some? && CLIENT_SECRET_VAR in env
    ensures CLIENT_ID_VAR !in env ==> r == Failure(ERR_CLIENT_ID_NOT_SET)
    ensures CLIENT_ID_VAR in env && ParseU32(env[CLIENT_ID_VAR]).None? ==> r == Failure(ERR_CLIENT_ID_INVALID)
    ensures CLIENT_ID_VAR in env && ParseU32(env[CLIENT_ID_VAR]).Some? && CLIENT_SECRET_VAR !in env
            ==> r == Failure(ERR_CLIENT_SECRET_NOT_SET)
    ensures r.Success? ==>
      && r.value.clientId == ParseU32(env[CLIENT_ID_VAR]).value
      && r.value.clientSecret == env[CLIENT_SECRET_VAR]
      && (r.value.refreshToken.Some? <==> REFRESH_TOKEN_VAR in env)
      && (REFRESH_TOKEN_VAR in env ==> r.value.refreshToken.value == env[REFRESH_TOKEN_VAR])
      && r.value.redirectUri == (if REDIRECT_URI_VAR in env then env[REDIRECT_URI_VAR] else DEFAULT_REDIRECT_URI)
      && r.value.accessToken == None
      && r.value.stravaUrl == STRAVA_URL
  {
    if CLIENT_ID_VAR !in env then Failure(ERR_CLIENT_ID_NOT_SET)
    else match ParseU32(env[CLIENT_ID_VAR])
      case None => Failure(ERR_CLIENT_ID_INVALID)
      case Some(clientId) =>
        if CLIENT_SECRET_VAR !in env then Failure(ERR_CLIENT_SECRET_NOT_SET)
        else
          var refreshToken := if REFRESH_TOKEN_VAR in env then Some(env[REFRESH_TOKEN_VAR]) else None;
          var redirectUri := if REDIRECT_URI_VAR in env then env[REDIRECT_URI_VAR] else DEFAULT_REDIRECT_URI;
          Success(StravaConfig(clientId, env[CLIENT_SECRET_VAR], refreshToken, redirectUri, None, STRAVA_URL))
  }

  /** Only the four variables matter: environments that agree on them load alike. */
  lemma LoadReadsOnlyItsVariables(env1: Env, env2: Env)
    requires SameSetting(env1, env2, CLIENT_ID_VAR) && SameSetting(env1, env2, CLIENT_SECRET_VAR)
    requires SameSetting(env1, env2, REFRESH_TOKEN_VAR) && SameSetting(env1, env2, REDIRECT_URI_VAR)
    ensures LoadEnvVariables(env1) == LoadEnvVariables(env2)
  {
  }

  predicate SameSetting(env1: Env, env2: Env, name: string) {
    (name in env1 <==> name in env2) && (name in env1 ==> env1[name] == env2[name])
  }

  /** The environment that describes a configuration: the id in decimal, and the token only when there is one. */
  function SettingsOf(c: StravaConfig): Env {
    var required := map[CLIENT_ID_VAR := Decimal(c.clientId), CLIENT_SECRET_VAR := c.clientSecret,
                        REDIRECT_URI_VAR := c.redirectUri];
    if c.refreshToken.Some? then required[REFRESH_TOKEN_VAR := c.refreshToken.value] else required
  }

  /** Every configuration that loading can produce is loaded back from its own settings. */
  lemma LoadSettingsOf(c: StravaConfig)
    requires c.accessToken == None && c.stravaUrl == STRAVA_URL
    ensures LoadEnvVariables(SettingsOf(c)) == Success(c)
  {
    ParseDecimal(c.clientId);
  }

  /** The environment of the unit tests: a valid id, a secret and a refresh token, no redirect URI. */
  function TestEnv(): Env {
    map[CLIENT_ID_VAR := "123456", CLIENT_SECRET_VAR := "dummy_secret", REFRESH_TOKEN_VAR := "dummy_token"]
  }

  /** The unit tests of `load_env_variables`, one `ensures` per test. */
  lemma LoadTestExamples()
    ensures LoadEnvVariables(TestEnv())
         == Success(StravaConfig(123456, "dummy_secret", Some("dummy_token"), DEFAULT_REDIRECT_URI, None, STRAVA_URL))
    ensures LoadEnvVariables(TestEnv()[CLIENT_ID_VAR := "not_a_number"]) == Failure(ERR_CLIENT_ID_INVALID)
    ensures LoadEnvVariables(TestEnv() - {CLIENT_ID_VAR}) == Failure(ERR_CLIENT_ID_NOT_SET)
    ensures LoadEnvVariables(TestEnv() - {CLIENT_SECRET_VAR}) == Failure(ERR_CLIENT_SECRET_NOT_SET)
    ensures LoadEnvVariables(TestEnv() - {REFRESH_TOKEN_VAR})
         == Success(StravaConfig(123456, "dummy_secret", None, DEFAULT_REDIRECT_URI, None, STRAVA_URL))
  {
    ParseTestExamples();
  }

  /**
   * `build_auth_url`: the authorization endpoint with the client id in
   * decimal, the redirect URI percent-encoded, and the scope as it stands.
   * The host is fixed; the configuration's `stravaUrl` is not used.
   * The template is written in the pieces of its parameters. The URL is
   * the endpoint, a `?` and the `&`-joined parameters, in order.
   */
  function BuildAuthUrl(c: StravaConfig): (url: string)
    ensures url == AUTHORIZE_URL + "?" + Query.JoinQuery(AuthParams(c))
  {
    var url := AUTHORIZE_URL + "?" + "client_id" + "=" + Decimal(c.clientId)
      + "&" + "redirect_uri" + "=" + PercentEncoding.EncodeComponent(c.redirectUri)
      + "&" + "response_type" + "=" + "code"
      + "&" + "scope" + "=" + SCOPE;
    var ps := AuthParams(c);
    Query.JoinQuery4(AUTHORIZE_URL + "?", ps[0], ps[1], ps[2], ps[3]);
    assert ps == [ps[0], ps[1], ps[2], ps[3]];
    url
  }

  /** Only the client id and the redirect URI shape the authorization URL. */
  lemma AuthUrlDependsOnIdAndUri(c1: StravaConfig, c2: StravaConfig)
    requires c1.clientId == c2.clientId && c1.redirectUri == c2.redirectUri
    ensures BuildAuthUrl(c1) == BuildAuthUrl(c2)
  {
  }

  /** The query parameters of the authorization URL, in order, as they appear in it. */
  function AuthParams(c: StravaConfig): seq<(string, string)> {
    [("client_id", Decimal(c.clientId)),
     ("redirect_uri", PercentEncoding.EncodeComponent(c.redirectUri)),
     ("response_type", "code"),
     ("scope", SCOPE)]
  }

  /**
   * What the authorization server reads back from an authorization URL:
   * the client id and the decoded redirect URI, or None when the URL is
   * not the endpoint with a well-formed query holding both.
   */
  function ReadAuthUrl(url: string): Option<(U32, string)> {
    var prefix := AUTHORIZE_URL + "?";
    if |url| < |prefix| || url[..|prefix|] != prefix then None
    else match Query.SplitQuery(url[|prefix|..])
      case None => None
      case Some(params) =>
        match (Query.Lookup(params, "client_id"), Query.Lookup(params, "redirect_uri"))
        case (Some(id), Some(uri)) =>
          (match (ParseU32(id), PercentEncoding.DecodeComponent(uri))
           case (Some(n), Some(u)) => Some((n, u))
           case _ => None)
        case _ => None
  }

  /** Decimal text holds no query delimiter. */
  lemma DecimalHasNoDelimiters(n: nat)
    ensures '&' !in Decimal(n) && '=' !in Decimal(n)
  {
  }

  /** No parameter of the authorization URL holds a query delimiter. */
  lemma AuthParamsArePlain(c: StravaConfig)
    ensures Query.Plain(AuthParams(c))
  {
    DecimalHasNoDelimiters(c.clientId);
    PercentEncoding.EncodedHasNoDelimiters(c.redirectUri, false);
    ScopeHasNoAmpersand();
    ScopeHasNoEquals();
    AuthKeysArePlain();
    var ps := AuthParams(c);
    Query.Plain4(ps[0], ps[1], ps[2], ps[3]);
    assert ps == [ps[0], ps[1], ps[2], ps[3]];
  }

  lemma AuthKeysArePlain()
    ensures Query.PlainText("client_id") && Query.PlainText("redirect_uri")
    ensures Query.PlainText("response_type") && Query.PlainText("code") && Query.PlainText("scope")
  {
  }

  /** The server finds the client id and the encoded redirect URI under their keys. */
  lemma LookupAuthParams(c: StravaConfig)
    ensures Query.Lookup(AuthParams(c), "client_id") == Some(Decimal(c.clientId))
    ensures Query.Lookup(AuthParams(c), "redirect_uri") == Some(PercentEncoding.EncodeComponent(c.redirectUri))
  {
    var ps := AuthParams(c);
    assert ps[1..][0] == ps[1];
  }

  /** The server reads back exactly the client id and the redirect URI of the configuration. */
  lemma ReadBuildAuthUrl(c: StravaConfig)
    ensures ReadAuthUrl(BuildAuthUrl(c)) == Some((c.clientId, c.redirectUri))
  {
    var prefix := AUTHORIZE_URL + "?";
    var q := Query.JoinQuery(AuthParams(c));
    assert BuildAuthUrl(c)[..|prefix|] == prefix && BuildAuthUrl(c)[|prefix|..] == q;
    AuthParamsArePlain(c);
    Query.SplitJoinQuery(AuthParams(c));
    LookupAuthParams(c);
    ParseDecimal(c.clientId);
  }

  /** The unit test of `build_auth_url`: the default redirect URI appears encoded, the scope as it stands. */
  lemma BuildAuthUrlExample(c: StravaConfig)
    requires c == StravaConfig(123456, "dummy_secret", None, "http" + "://" + "localhost" + "/", None, STRAVA_URL)
    ensures BuildAuthUrl(c) == AUTHORIZE_URL + "?" + "client_id" + "=" + "123456"
      + "&" + "redirect_uri" + "=" + "http" + "%3A%2F%2F" + "localhost" + "%2F"
      + "&" + "response_type" + "=" + "code"
      + "&" + "scope" + "=" + SCOPE
  {
    DecimalTestExample();
    PercentEncoding.EncodeComponentExample();
  }

  /** A form body, as `key=value` pairs in order. */
  type Form = seq<(string, string)>

  /** An HTTP response: the status and the body text, None when reading the body failed. */
  datatype Response = Response(status: nat, body: Option<string>)

  /** The panics of `refresh_strava_token`, in the order the code can reach them. */
  datatype Panic =
    | BadStravaUrl         // the token URL does not parse
    | NoRefreshToken       // `unwrap` on a configuration without a refresh token
    | SendFailed           // the request could not be sent
    | RefreshRejected(status: nat)
    | BodyUnreadable
    | BadJson              // the body is not a `RefreshResponse`

  /** The token endpoint under the configured base URL; the production base gives the production endpoint. */
  function TokenUrl(c: StravaConfig): (url: string)
    ensures |c.stravaUrl| < |url| && url[..|c.stravaUrl|] == c.stravaUrl
    ensures c.stravaUrl == STRAVA_URL ==> url == TOKEN_URL
  {
    var url := c.stravaUrl + "/oauth/token";
    assert url[..|c.stravaUrl|] == c.stravaUrl;
    url
  }

  /**
   * The four form fields of a refresh request, in order: the endpoint
   * reads the id in decimal, the secret, the token and the grant type.
   */
  function RefreshForm(c: StravaConfig, refreshToken: string): (form: Form)
    ensures |form| == 4
    ensures Query.Lookup(form, "client_id") == Some(Decimal(c.clientId))
    ensures Query.Lookup(form, "client_secret") == Some(c.clientSecret)
    ensures Query.Lookup(form, "refresh_token") == Some(refreshToken)
    ensures Query.Lookup(form, "grant_type") == Some("refresh_token")
  {
    FormKeysDistinct();
    Query.Lookup4(("client_id", Decimal(c.clientId)), ("client_secret", c.clientSecret),
                  ("refresh_token", refreshToken), ("grant_type", "refresh_token"));
    [("client_id", Decimal(c.clientId)),
     ("client_secret", c.clientSecret),
     ("refresh_token", refreshToken),
     ("grant_type", "refresh_token")]
  }

  /**
   * The configuration after a successful refresh: both tokens replaced,
   * everything else kept, so the next refresh goes to the same endpoint
   * with the token just received.
   */
  function Rotated(c: StravaConfig, resp: RefreshResponse): (c': StravaConfig)
    ensures c'.refreshToken == Some(resp.refreshToken) && c'.accessToken == Some(resp.accessToken)
    ensures c'.clientId == c.clientId && c'.clientSecret == c.clientSecret
    ensures c'.redirectUri == c.redirectUri && c'.stravaUrl == c.stravaUrl
    ensures TokenUrl(c') == TokenUrl(c)
    ensures RefreshForm(c', resp.refreshToken) == RefreshForm(c, resp.refreshToken)
  {
    c.(refreshToken := Some(resp.refreshToken), accessToken := Some(resp.accessToken))
  }

  /**
   * `refresh_strava_token`. The URL parser, the HTTP POST and the JSON
   * decoder are parameters: `urlParses` says whether `Url::parse` accepts
   * the text, `post` gives the response to a form sent to a URL or None when
   * sending fails, and `parseJson` decodes a body or gives None.
   */
  function RefreshStravaToken(
    c: StravaConfig,
    urlParses: string -> bool,
    post: (string, Form) -> Option<Response>,
    parseJson: string -> Option<RefreshResponse>): (r: Result<StravaConfig, Panic>)
    ensures !urlParses(TokenUrl(c)) ==> r == Failure(BadStravaUrl)
    ensures urlParses(TokenUrl(c)) && c.refreshToken.None? ==> r == Failure(NoRefreshToken)
    ensures r.Success? <==>
      && urlParses(TokenUrl(c)) && c.refreshToken.Some?
      && var reply := post(TokenUrl(c), RefreshForm(c, c.refreshToken.value));
      && reply.Some? && reply.value.status == 200 && reply.value.body.Some?
      && parseJson(reply.value.body.value).Some?
    ensures r.Success? ==>
      r.value == Rotated(c, parseJson(post(TokenUrl(c), RefreshForm(c, c.refreshToken.value)).value.body.value).value)
    ensures urlParses(TokenUrl(c)) && c.refreshToken.Some? ==>
      var reply := post(TokenUrl(c), RefreshForm(c, c.refreshToken.value));
      && (reply.None? ==> r == Failure(SendFailed))
      && (reply.Some? && reply.value.status != 200 ==> r == Failure(RefreshRejected(reply.value.status)))
  {
    if !urlParses(TokenUrl(c)) then Failure(BadStravaUrl)
    else if c.refreshToken.None? then Failure(NoRefreshToken)
    else match post(TokenUrl(c), RefreshForm(c, c.refreshToken.value))
      case None => Failure(SendFailed)
      case Some(reply) =>
        if reply.status != 200 then Failure(RefreshRejected(reply.status))
        else match reply.body
          case None => Failure(BodyUnreadable)
          case Some(body) =>
            match parseJson(body)
            case None => Failure(BadJson)
            case Some(resp) => Success(Rotated(c, resp))
  }

  /**
   * A refresh keeps the client, the redirect URI and the base URL, and the
   * next refresh posts to the same endpoint with the token it received.
   */
  lemma RefreshKeepsClient(
    c: StravaConfig,
    urlParses: string -> bool,
    post: (string, Form) -> Option<Response>,
    parseJson: string -> Option<RefreshResponse>)
    requires RefreshStravaToken(c, urlParses, post, parseJson).Success?
    ensures var c' := RefreshStravaToken(c, urlParses, post, parseJson).value;
      && c'.clientId == c.clientId && c'.clientSecret == c.clientSecret
      && c'.redirectUri == c.redirectUri && c'.stravaUrl == c.stravaUrl
      && c'.refreshToken.Some? && c'.accessToken.Some?
      && TokenUrl(c') == TokenUrl(c)
      && RefreshForm(c', c'.refreshToken.value)
         == RefreshForm(c, c'.refreshToken.value)
  {
  }

  /** The token type and the lifetime in the response make no difference. */
  lemma RefreshIgnoresTypeAndLifetime(
    c: StravaConfig,
    urlParses: string -> bool,
    post: (string, Form) -> Option<Response>,
    parseJson1: string -> Option<RefreshResponse>,
    parseJson2: string -> Option<RefreshResponse>)
    requires forall body :: parseJson1(body).Some? <==> parseJson2(body).Some?
    requires forall body :: parseJson1(body).Some? ==>
      parseJson1(body).value.refreshToken == parseJson2(body).value.refreshToken
      && parseJson1(body).value.accessToken == parseJson2(body).value.accessToken
    ensures RefreshStravaToken(c, urlParses, post, parseJson1) == RefreshStravaToken(c, urlParses, post, parseJson2)
  {
  }

  /** Every loaded configuration refreshes at the production token endpoint. */
  lemma LoadedTokenUrl(env: Env)
    requires LoadEnvVariables(env).Success?
    ensures TokenUrl(LoadEnvVariables(env).value) == TOKEN_URL
  {
  }

  /**
   * The unit test of `refresh_strava_token`: a server at `serverUrl` that
   * answers the expected form with status 200 and a body decoding to new
   * tokens yields the configuration with the new access token.
   */
  lemma RefreshTestExample(
    c: StravaConfig,
    serverUrl: string,
    urlParses: string -> bool,
    post: (string, Form) -> Option<Response>,
    parseJson: string -> Option<RefreshResponse>,
    body: string)
    requires c == StravaConfig(123456, "dummy_secret", Some("dummy_token"), DEFAULT_REDIRECT_URI, None, serverUrl)
    requires urlParses(serverUrl + "/oauth/token")
    requires post(serverUrl + "/oauth/token",
                  [("client_id", "123456"), ("client_secret", "dummy_secret"),
                   ("refresh_token", "dummy_token"), ("grant_type", "refresh_token")])
             == Some(Response(200, Some(body)))
    requires parseJson(body) == Some(RefreshResponse("dummy_token", "dummy_access_token", "Bearer", 21600))
    ensures RefreshStravaToken(c, urlParses, post, parseJson)
         == Success(StravaConfig(123456, "dummy_secret", Some("dummy_token"), DEFAULT_REDIRECT_URI,
                                 Some("dummy_access_token"), serverUrl))
  {
    DecimalTestExample();
  }

  /** Why the program stops: the configuration could not be loaded, or the refresh panicked. */
  datatype Fatal = ConfigError(message: string) | RefreshPanic(panic: Panic)

  /** What one run shows: the authorization URL when it prints one, and the refreshed configuration or the panic. */
  datatype Run = Run(authUrl: Option<string>, outcome: Result<StravaConfig, Fatal>)

  /**
   * `main`: load the configuration (a failure panics in `unwrap`), print the
   * authorization URL when there is no refresh token, then refresh.
   */
  function Program(
    env: Env,
    urlParses: string -> bool,
    post: (string, Form) -> Option<Response>,
    parseJson: string -> Option<RefreshResponse>): (run: Run)
    ensures run.authUrl.Some? ==> LoadEnvVariables(env).Success? && LoadEnvVariables(env).value.refreshToken.None?
    ensures run.outcome.Success? ==> run.authUrl.None?
    ensures LoadEnvVariables(env).Failure? ==> run == Run(None, Failure(ConfigError(LoadEnvVariables(env).error)))
    ensures LoadEnvVariables(env).Success? ==>
      var c := LoadEnvVariables(env).value;
      var refreshed := RefreshStravaToken(c, urlParses, post, parseJson);
      && (run.authUrl.Some? <==> REFRESH_TOKEN_VAR !in env)
      && (REFRESH_TOKEN_VAR !in env ==> run.authUrl == Some(BuildAuthUrl(c)))
      && (run.outcome.Success? <==> refreshed.Success?)
      && (refreshed.Success? ==> run.outcome.value == refreshed.value)
      && (refreshed.Failure? ==> run.outcome == Failure(RefreshPanic(refreshed.error)))
  {
    match LoadEnvVariables(env)
    case Failure(e) => Run(None, Failure(ConfigError(e)))
    case Success(c) =>
      var authUrl := if c.refreshToken.None? then Some(BuildAuthUrl(c)) else None;
      match RefreshStravaToken(c, urlParses, post, parseJson)
      case Failure(p) => Run(authUrl, Failure(RefreshPanic(p)))
      case Success(c') => Run(authUrl, Success(c'))
  }

  /**
   * Without a refresh token in the environment the program prints the
   * authorization URL and then always panics, since the refresh unwraps
   * the missing token: no run completes until the token is set by hand.
   */
  lemma FirstRunPanics(
    env: Env,
    urlParses: string -> bool,
    post: (string, Form) -> Option<Response>,
    parseJson: string -> Option<RefreshResponse>)
    requires LoadEnvVariables(env).Success? && REFRESH_TOKEN_VAR !in env
    requires urlParses(TOKEN_URL)
    ensures Program(env, urlParses, post, parseJson)
         == Run(Some(BuildAuthUrl(LoadEnvVariables(env).value)), Failure(RefreshPanic(NoRefreshToken)))
  {
    LoadedTokenUrl(env);
  }

  /**
   * With a refresh token in the environment the program prints nothing and
   * ends with the configuration the token endpoint's answer rotates in.
   */
  lemma TokenRunRefreshes(
    env: Env,
    urlParses: string -> bool,
    post: (string, Form) -> Option<Response>,
    parseJson: string -> Option<RefreshResponse>,
    body: string,
    resp: RefreshResponse)
    requires LoadEnvVariables(env).Success? && REFRESH_TOKEN_VAR in env
    requires urlParses(TOKEN_URL)
    requires post(TOKEN_URL, RefreshForm(LoadEnvVariables(env).value, env[REFRESH_TOKEN_VAR])) == Some(Response(200, Some(body)))
    requires parseJson(body) == Some(resp)
    ensures Program(env, urlParses, post, parseJson) == Run(None, Success(Rotated(LoadEnvVariables(env).value, resp)))
  {
    LoadedTokenUrl(env);
  }
}
