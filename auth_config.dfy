/**
 * The authentication configuration of the backend: the keyword parsers of the
 * three mode settings and their labels, the cross-field consistency check of
 * the whole section, and the recognition of a user's own role by prefix.
 *
 * Parsing a callback URL is delegated to `parseUri`, a parameter standing for
 * the backend's HTTP URI parser.
 */
module AuthConfig {
  import W = Wrappers
  import opened Text
  import Finding

  /** A parsed HTTP URI (its normal form). */
  datatype Uri = Uri(text: string)

  /** Why a setting could not be parsed. */
  datatype ParseError = InvalidValue | InvalidUri

  /** `auth.source`: how incoming requests are authenticated. */
  datatype AuthSource = None | TobiraSession | Callback(uri: Uri) | TrustAuthHeaders

  /** `auth.session.from_login_credentials`. */
  datatype LoginCredentialsHandler = None | Opencast | Callback(uri: Uri)

  /** `auth.session.from_session_endpoint`. */
  datatype SessionEndpointHandler = None | Callback(uri: Uri) | TrustAuthHeaders

  /** The URI after `prefix`, or the parser's error. */
  function ParseCallback(value: string, prefix: string, parseUri: string -> W.Option<Uri>): (r: W.Result<Uri, ParseError>)
    requires StartsWith(value, prefix)
    ensures r.Ok? <==> parseUri(value[|prefix|..]).Some?
    ensures r.Ok? ==> parseUri(value[|prefix|..]) == W.Some(r.value)
  {
    match parseUri(value[|prefix|..])
    case Some(uri) => W.Ok(uri)
    case None => W.Err(InvalidUri)
  }

  // ---------------------------------------------------------------------------
  // auth.source
  // ---------------------------------------------------------------------------

  function ParseAuthSource(value: string, parseUri: string -> W.Option<Uri>): (r: W.Result<AuthSource, ParseError>)
    ensures r.Ok? && r.value.Callback? ==> StartsWith(value, "callback:")
    ensures r.Err? && r.error == InvalidValue <==>
      value !in {"none", "trust-auth-headers", "tobira-session"} && !StartsWith(value, "callback:")
    ensures StartsWith(value, "callback:") ==>
      && (r.Ok? <==> parseUri(value[9..]).Some?)
      && (r.Ok? ==> r.value == AuthSource.Callback(parseUri(value[9..]).value))
      && (r.Err? ==> r.error == InvalidUri)
  {
    assert StartsWith(value, "callback:") ==> value[0] == 'c' && |value| >= 9;
    if value == "none" then W.Ok(AuthSource.None)
    else if value == "trust-auth-headers" then W.Ok(AuthSource.TrustAuthHeaders)
    else if value == "tobira-session" then W.Ok(AuthSource.TobiraSession)
    else if StartsWith(value, "callback:") then
      match ParseCallback(value, "callback:", parseUri)
      case Ok(uri) => W.Ok(AuthSource.Callback(uri))
      case Err(e) => W.Err(e)
    else W.Err(InvalidValue)
  }

  function AuthSourceLabel(source: AuthSource): (keyword: string)
    ensures keyword != ""
    ensures keyword == "callback" <==> source.Callback?
  {
    match source
    case None => "none"
    case TobiraSession => "tobira-session"
    case Callback(_) => "callback"
    case TrustAuthHeaders => "trust-auth-headers"
  }

  /**
   * The label of a source is the keyword it is parsed from; for a callback it
   * is the keyword before the colon and the URI.
   */
  lemma {:induction false} AuthSourceRoundTrip(source: AuthSource, text: string, parseUri: string -> W.Option<Uri>)
    requires source.Callback? ==> parseUri(text) == W.Some(source.uri)
    ensures !source.Callback? ==> ParseAuthSource(AuthSourceLabel(source), parseUri) == W.Ok(source)
    ensures source.Callback? ==>
      ParseAuthSource(AuthSourceLabel(source) + ":" + text, parseUri) == W.Ok(source)
  {
    if source.Callback? {
      var value := AuthSourceLabel(source) + ":" + text;
      assert value[0] == 'c' && value[..9] == "callback:" && value[9..] == text;
    }
  }

  // ---------------------------------------------------------------------------
  // auth.session.from_login_credentials
  // ---------------------------------------------------------------------------

  function ParseLoginCredentialsHandler(value: string, parseUri: string -> W.Option<Uri>)
    : (r: W.Result<LoginCredentialsHandler, ParseError>)
    ensures r.Ok? && r.value.Callback? ==> StartsWith(value, "login-callback:")
    ensures r.Err? && r.error == InvalidValue <==>
      value !in {"none", "opencast"} && !StartsWith(value, "login-callback:")
    ensures StartsWith(value, "login-callback:") ==>
      && (r.Ok? <==> parseUri(value[15..]).Some?)
      && (r.Ok? ==> r.value == LoginCredentialsHandler.Callback(parseUri(value[15..]).value))
      && (r.Err? ==> r.error == InvalidUri)
  {
    assert StartsWith(value, "login-callback:") ==> value[0] == 'l';
    if value == "none" then W.Ok(LoginCredentialsHandler.None)
    else if value == "opencast" then W.Ok(LoginCredentialsHandler.Opencast)
    else if StartsWith(value, "login-callback:") then
      match ParseCallback(value, "login-callback:", parseUri)
      case Ok(uri) => W.Ok(LoginCredentialsHandler.Callback(uri))
      case Err(e) => W.Err(e)
    else W.Err(InvalidValue)
  }

  function LoginCredentialsHandlerLabel(handler: LoginCredentialsHandler): (keyword: string)
    ensures keyword != ""
    ensures keyword == "login-callback" <==> handler.Callback?
  {
    match handler
    case None => "none"
    case Callback(_) => "login-callback"
    case Opencast => "opencast"
  }

  lemma {:induction false} LoginCredentialsHandlerRoundTrip(handler: LoginCredentialsHandler, text: string,
                                                            parseUri: string -> W.Option<Uri>)
    requires handler.Callback? ==> parseUri(text) == W.Some(handler.uri)
    ensures !handler.Callback? ==>
      ParseLoginCredentialsHandler(LoginCredentialsHandlerLabel(handler), parseUri) == W.Ok(handler)
    ensures handler.Callback? ==>
      ParseLoginCredentialsHandler(LoginCredentialsHandlerLabel(handler) + ":" + text, parseUri) == W.Ok(handler)
  {
    if handler.Callback? {
      var value := LoginCredentialsHandlerLabel(handler) + ":" + text;
      assert value[..15] == "login-callback:" && value[15..] == text;
    }
  }

  // ---------------------------------------------------------------------------
  // auth.session.from_session_endpoint
  // ---------------------------------------------------------------------------

  function ParseSessionEndpointHandler(value: string, parseUri: string -> W.Option<Uri>)
    : (r: W.Result<SessionEndpointHandler, ParseError>)
    ensures r.Ok? && r.value.Callback? ==> StartsWith(value, "callback:")
    ensures r.Err? && r.error == InvalidValue <==>
      value !in {"none", "trust-auth-headers"} && !StartsWith(value, "callback:")
    ensures StartsWith(value, "callback:") ==>
      && (r.Ok? <==> parseUri(value[9..]).Some?)
      && (r.Ok? ==> r.value == SessionEndpointHandler.Callback(parseUri(value[9..]).value))
      && (r.Err? ==> r.error == InvalidUri)
  {
    assert StartsWith(value, "callback:") ==> value[0] == 'c' && |value| >= 9;
    if value == "none" then W.Ok(SessionEndpointHandler.None)
    else if value == "trust-auth-headers" then W.Ok(SessionEndpointHandler.TrustAuthHeaders)
    else if StartsWith(value, "callback:") then
      match ParseCallback(value, "callback:", parseUri)
      case Ok(uri) => W.Ok(SessionEndpointHandler.Callback(uri))
      case Err(e) => W.Err(e)
    else W.Err(InvalidValue)
  }

  /** The label as written: a callback handler is labelled "login-callback". */
  function SessionEndpointHandlerLabel(handler: SessionEndpointHandler): (keyword: string)
    ensures keyword != ""
  {
    match handler
    case None => "none"
    case Callback(_) => "login-callback"
    case TrustAuthHeaders => "trust-auth-headers"
  }

  /** The written label of a callback handler does not parse back, with or without a URI. */
  lemma SessionEndpointLabelMismatch(uri: Uri, text: string, parseUri: string -> W.Option<Uri>)
    ensures ParseSessionEndpointHandler(SessionEndpointHandlerLabel(SessionEndpointHandler.Callback(uri)), parseUri).Err?
    ensures ParseSessionEndpointHandler(
      SessionEndpointHandlerLabel(SessionEndpointHandler.Callback(uri)) + ":" + text, parseUri).Err?
  {
    var value := SessionEndpointHandlerLabel(SessionEndpointHandler.Callback(uri)) + ":" + text;
    assert value[0] == 'l';
  }

  /**
   * The label naming the keyword the handler is parsed from. It differs from
   * the written label only for a callback handler.
   */
  function SessionEndpointHandlerKeyword(handler: SessionEndpointHandler): (keyword: string)
    ensures keyword != ""
    ensures keyword == SessionEndpointHandlerLabel(handler) <==> !handler.Callback?
  {
    match handler
    case None => "none"
    case Callback(_) => "callback"
    case TrustAuthHeaders => "trust-auth-headers"
  }

  lemma {:induction false} SessionEndpointHandlerRoundTrip(handler: SessionEndpointHandler, text: string,
                                                           parseUri: string -> W.Option<Uri>)
    requires handler.Callback? ==> parseUri(text) == W.Some(handler.uri)
    ensures !handler.Callback? ==>
      ParseSessionEndpointHandler(SessionEndpointHandlerKeyword(handler), parseUri) == W.Ok(handler)
    ensures handler.Callback? ==>
      ParseSessionEndpointHandler(SessionEndpointHandlerKeyword(handler) + ":" + text, parseUri) == W.Ok(handler)
  {
    if handler.Callback? {
      var value := SessionEndpointHandlerKeyword(handler) + ":" + text;
      assert value[0] == 'c' && value[..9] == "callback:" && value[9..] == text;
    }
  }

  // ---------------------------------------------------------------------------
  // AuthConfig::validate
  // ---------------------------------------------------------------------------

  /** The settings of the `auth` section that the consistency check reads. */
  datatype Config = Config(
    source: AuthSource,
    loginLink: W.Option<string>,
    logoutLink: W.Option<string>,
    userIdLabel: W.Option<string>,
    passwordLabel: W.Option<string>,
    note: W.Option<string>,
    fromLoginCredentials: LoginCredentialsHandler,
    fromSessionEndpoint: SessionEndpointHandler,
    relevantHeaders: W.Option<seq<string>>,   // lower-case header names
    relevantCookies: W.Option<seq<string>>,
    userRolePrefixes: seq<string>)

  /** The inconsistencies `validate` reports, in the order it checks them. */
  datatype ConfigError =
    | LoginLinkWithLoginPage
    | MissingLogoutLink
    | CallbackWithoutRelevantData
    | RelevantDataWithoutCallback
    | CookieHeaderAndCookies
    | NoSessionSource
    | SessionSourceWithoutTobiraSession

  function Rank(e: ConfigError): nat {
    match e
    case LoginLinkWithLoginPage => 0
    case MissingLogoutLink => 1
    case CallbackWithoutRelevantData => 2
    case RelevantDataWithoutCallback => 3
    case CookieHeaderAndCookies => 4
    case NoSessionSource => 5
    case SessionSourceWithoutTobiraSession => 6
  }

  predicate CallbackUsed(c: Config) {
    c.source.Callback? || c.fromSessionEndpoint.Callback?
  }

  predicate SessionSourcesDefined(c: Config) {
    c.fromLoginCredentials != LoginCredentialsHandler.None
      || c.fromSessionEndpoint != SessionEndpointHandler.None
  }

  /** Whether the configuration breaks the rule behind `e` (the rules stated independently). */
  predicate Violates(c: Config, e: ConfigError) {
    match e
    case LoginLinkWithLoginPage =>
      c.loginLink.Some? && (c.userIdLabel.Some? || c.passwordLabel.Some? || c.note.Some?)
    case MissingLogoutLink =>
      c.logoutLink.None? && (c.source.Callback? || c.source == AuthSource.TrustAuthHeaders)
    case CallbackWithoutRelevantData =>
      CallbackUsed(c) && c.relevantHeaders.None? && c.relevantCookies.None?
    case RelevantDataWithoutCallback =>
      !CallbackUsed(c) && (c.relevantHeaders.Some? || c.relevantCookies.Some?)
    case CookieHeaderAndCookies =>
      c.relevantHeaders.Some? && "cookie" in c.relevantHeaders.value && c.relevantCookies.Some?
    case NoSessionSource =>
      c.source == AuthSource.TobiraSession && !SessionSourcesDefined(c)
    case SessionSourceWithoutTobiraSession =>
      c.source != AuthSource.TobiraSession && SessionSourcesDefined(c)
  }

  /**
   * `validate`: the first failing rule in order, or success. A configuration is
   * accepted exactly when it breaks no rule.
   */
  function Validate(c: Config): (r: W.Result<(), ConfigError>)
    ensures r.Ok? ==> forall e :: !Violates(c, e)
    ensures r.Err? ==> Violates(c, r.error)
    ensures r.Err? ==> forall e :: Rank(e) < Rank(r.error) ==> !Violates(c, e)
  {
    if c.loginLink.Some? && (c.userIdLabel.Some? || c.passwordLabel.Some? || c.note.Some?) then
      W.Err(LoginLinkWithLoginPage)
    else if c.logoutLink.None? && (c.source.Callback? || c.source == AuthSource.TrustAuthHeaders) then
      W.Err(MissingLogoutLink)
    else
      var relevantHeadersOrCookies := c.relevantHeaders.Some? || c.relevantCookies.Some?;
      var authCallbackUsed := c.source.Callback? || c.fromSessionEndpoint.Callback?;
      if authCallbackUsed && !relevantHeadersOrCookies then W.Err(CallbackWithoutRelevantData)
      else if !authCallbackUsed && relevantHeadersOrCookies then W.Err(RelevantDataWithoutCallback)
      else
        var cookieHeaderRelevant := c.relevantHeaders.Some? && "cookie" in c.relevantHeaders.value;
        if cookieHeaderRelevant && c.relevantCookies.Some? then W.Err(CookieHeaderAndCookies)
        else
          var sessionSourcesDefined := false
            || c.fromLoginCredentials != LoginCredentialsHandler.None
            || c.fromSessionEndpoint != SessionEndpointHandler.None;
          if c.source == AuthSource.TobiraSession then
            if !sessionSourcesDefined then W.Err(NoSessionSource) else W.Ok(())
          else
            if sessionSourcesDefined then W.Err(SessionSourceWithoutTobiraSession) else W.Ok(())
  }

  /** An accepted configuration uses relevant headers or cookies exactly when a callback is used. */
  lemma AcceptedCallbackData(c: Config)
    requires Validate(c).Ok?
    ensures CallbackUsed(c) <==> c.relevantHeaders.Some? || c.relevantCookies.Some?
    ensures c.source == AuthSource.TobiraSession <==> SessionSourcesDefined(c)
  {
    assert !Violates(c, CallbackWithoutRelevantData) && !Violates(c, RelevantDataWithoutCallback);
    assert !Violates(c, NoSessionSource) && !Violates(c, SessionSourceWithoutTobiraSession);
  }

  // ---------------------------------------------------------------------------
  // User roles
  // ---------------------------------------------------------------------------

  /** `is_user_role`: some configured prefix starts the role. */
  function IsUserRole(prefixes: seq<string>, role: string): (b: bool)
    ensures b <==> exists i :: 0 <= i < |prefixes| && StartsWith(role, prefixes[i])
  {
    if |prefixes| == 0 then false
    else
      var rest := IsUserRole(prefixes[1..], role);
      assert rest <==> exists i :: 1 <= i < |prefixes| && StartsWith(role, prefixes[i]) by {
        if rest {
          var i :| 0 <= i < |prefixes[1..]| && StartsWith(role, prefixes[1..][i]);
          assert prefixes[i + 1] == prefixes[1..][i];
        }
        if exists i :: 1 <= i < |prefixes| && StartsWith(role, prefixes[i]) {
          var i :| 1 <= i < |prefixes| && StartsWith(role, prefixes[i]);
          assert prefixes[1..][i - 1] == prefixes[i];
        }
      }
      StartsWith(role, prefixes[0]) || rest
  }

  /** `find_user_role`: the first user role among `roles`, if any. */
  function FindUserRole(prefixes: seq<string>, roles: seq<string>): (r: W.Option<string>)
    ensures r.Some? ==> r.value in roles && IsUserRole(prefixes, r.value)
    ensures r.None? <==> forall x :: x in roles ==> !IsUserRole(prefixes, x)
    ensures r.Some? ==> exists k :: (0 <= k < |roles| && roles[k] == r.value
      && forall j :: 0 <= j < k ==> !IsUserRole(prefixes, roles[j]))
  {
    var k := Finding.FirstIndex(roles, role => IsUserRole(prefixes, role));
    if k < |roles| then W.Some(roles[k]) else W.None
  }

  /** Further roles after a user role change nothing: only a warning is logged for them. */
  lemma FindUserRoleIgnoresLater(prefixes: seq<string>, roles: seq<string>, more: seq<string>)
    requires FindUserRole(prefixes, roles).Some?
    ensures FindUserRole(prefixes, roles + more) == FindUserRole(prefixes, roles)
  {
    var p := (role: string) => IsUserRole(prefixes, role);
    Finding.FindAppend(roles, more, p);
    assert FindUserRole(prefixes, roles) == Finding.Find(roles, p);
    assert FindUserRole(prefixes, roles + more) == Finding.Find(roles + more, p);
  }
}
