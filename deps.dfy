/**
 * The request dependencies and middleware: API-key verification, client-address resolution,
 * the rate-limit and preflight middleware, and the CORS headers of a response.
 */
module Deps {
  import opened Wrappers
  import opened Text
  import Config

  // ---------------------------------------------------------------------------------------
  // Headers
  // ---------------------------------------------------------------------------------------

  /** Request headers as received: names and values, in order, names compared without case. */
  type RequestHeaders = seq<(string, string)>

  /** `request.headers.get(name)`: the value of the first header whose name matches. */
  function HeaderGet(hs: RequestHeaders, name: string): (v: Option<string>)
    ensures v.None? <==> forall i :: 0 <= i < |hs| ==> Lower(hs[i].0) != Lower(name)
  {
    if hs == [] then None
    else if Lower(hs[0].0) == Lower(name) then Some(hs[0].1)
    else
      assert forall j :: 1 <= j < |hs| ==> hs[j] == hs[1..][j - 1];
      HeaderGet(hs[1..], name)
  }

  /** Header `i` is the first whose name matches. */
  predicate FirstMatchAt(hs: RequestHeaders, name: string, i: int) {
    && 0 <= i < |hs| && Lower(hs[i].0) == Lower(name)
    && forall j :: 0 <= j < i ==> Lower(hs[j].0) != Lower(name)
  }

  /** A value found is the one of the first matching header. */
  lemma {:induction false} HeaderGetFirst(hs: RequestHeaders, name: string)
    requires HeaderGet(hs, name).Some?
    ensures exists i :: FirstMatchAt(hs, name, i) && hs[i].1 == HeaderGet(hs, name).value
    decreases |hs|
  {
    if Lower(hs[0].0) == Lower(name) {
      assert FirstMatchAt(hs, name, 0);
    } else {
      var tail := hs[1..];
      assert HeaderGet(hs, name) == HeaderGet(tail, name);
      HeaderGetFirst(tail, name);
      var i :| FirstMatchAt(tail, name, i) && tail[i].1 == HeaderGet(tail, name).value;
      assert hs[i + 1] == tail[i];
      forall j | 0 <= j < i + 1
        ensures Lower(hs[j].0) != Lower(name)
      {
        if j > 0 {
          assert hs[j] == tail[j - 1];
        }
      }
      assert FirstMatchAt(hs, name, i + 1);
    }
  }

  /** Header lookup is insensitive to the letter case of the name asked for. */
  lemma HeaderGetIgnoresCase(hs: RequestHeaders, name: string)
    ensures HeaderGet(hs, Lower(name)) == HeaderGet(hs, name)
    decreases |hs|
  {
    LowerIdempotent(name);
    if hs != [] {
      HeaderGetIgnoresCase(hs[1..], name);
    }
  }

  /** An HTTP error raised to the framework. */
  datatype HttpError = HttpError(status: int, detail: string)

  // ---------------------------------------------------------------------------------------
  // API key
  // ---------------------------------------------------------------------------------------

  /** Parsed `Authorization` credentials: the scheme and the rest. */
  datatype Credentials = Credentials(scheme: string, credentials: string)

  const API_KEY_DETAIL: string :=
    "API key required. Provide via 'x-api-key' header or 'Authorization: Bearer <key>'"

  /** A bearer scheme, in any letter case. */
  predicate IsBearer(c: Option<Credentials>) {
    c.Some? && Lower(c.value.scheme) == "bearer"
  }

  /**
   * `verify_api_key`: nothing when keys are not required; otherwise the `x-api-key` header,
   * else bearer credentials, else a 401 error.
   */
  function VerifyApiKey(required: bool, xApiKey: Option<string>, credentials: Option<Credentials>)
    : (r: Result<Option<string>, HttpError>)
    ensures !required ==> r == Ok(None)
    ensures required && Truthy(xApiKey) ==> r == Ok(xApiKey)
    ensures required && !Truthy(xApiKey) && IsBearer(credentials) ==> r == Ok(Some(credentials.value.credentials))
    ensures r.Err? <==> required && !Truthy(xApiKey) && !IsBearer(credentials)
    ensures r.Err? ==> r.error == HttpError(401, API_KEY_DETAIL)
  {
    if !required then Ok(None)
    else if Truthy(xApiKey) then Ok(xApiKey)
    else if IsBearer(credentials) then Ok(Some(credentials.value.credentials))
    else Err(HttpError(401, API_KEY_DETAIL))
  }

  /** The bearer scheme is matched without regard to letter case. */
  lemma BearerSchemeIgnoresCase(required: bool, xApiKey: Option<string>, scheme: string, key: string)
    ensures VerifyApiKey(required, xApiKey, Some(Credentials(scheme, key)))
         == VerifyApiKey(required, xApiKey, Some(Credentials(Lower(scheme), key)))
  {
    LowerIdempotent(scheme);
  }

  /** When keys are not required, the headers do not matter. */
  lemma KeysNotRequiredIgnoreHeaders(x1: Option<string>, x2: Option<string>, c1: Option<Credentials>,
                                     c2: Option<Credentials>)
    ensures VerifyApiKey(false, x1, c1) == VerifyApiKey(false, x2, c2) == Ok(None)
  {
  }

  // ---------------------------------------------------------------------------------------
  // Client address
  // ---------------------------------------------------------------------------------------

  const UNKNOWN_CLIENT: string := "unknown"

  /**
   * `get_client_ip`: the first `X-Forwarded-For` entry, trimmed; else `X-Real-IP`; else the
   * connection's host; else `unknown`.
   */
  function GetClientIp(hs: RequestHeaders, clientHost: Option<string>): (ip: string)
    ensures Truthy(HeaderGet(hs, "X-Forwarded-For")) ==>
      ip == Strip(Split(HeaderGet(hs, "X-Forwarded-For").value, ",")[0]) && !Contains(ip, ",")
    ensures !Truthy(HeaderGet(hs, "X-Forwarded-For")) && Truthy(HeaderGet(hs, "X-Real-IP")) ==>
      ip == HeaderGet(hs, "X-Real-IP").value
    ensures !Truthy(HeaderGet(hs, "X-Forwarded-For")) && !Truthy(HeaderGet(hs, "X-Real-IP")) ==>
      ip == (if clientHost.Some? then clientHost.value else UNKNOWN_CLIENT)
  {
    var forwarded := HeaderGet(hs, "X-Forwarded-For");
    if Truthy(forwarded) then
      var first := Split(forwarded.value, ",")[0];
      SplitPiecesFree(forwarded.value, ",");
      Config.StripKeepsAbsentChar(first, ',');
      Strip(first)
    else
      var realIp := HeaderGet(hs, "X-Real-IP");
      if Truthy(realIp) then realIp.value
      else if clientHost.Some? then clientHost.value
      else UNKNOWN_CLIENT
  }

  /** A forwarded list names its first hop: `a, b` resolves to `a` for a comma-free `a`. */
  lemma ForwardedFirstHop(hs: RequestHeaders, a: string, b: string, host: Option<string>)
    requires HeaderGet(hs, "X-Forwarded-For") == Some(a + "," + b) && !Contains(a, ",")
    ensures GetClientIp(hs, host) == Strip(a)
  {
    SplitAtFirst(a, ',', b);
  }

  // ---------------------------------------------------------------------------------------
  // Middleware
  // ---------------------------------------------------------------------------------------

  /** A response body: an opaque one, the rate-limit object, or none. */
  datatype Body = Opaque(content: string) | RateLimitBody(error: string, retryAfter: int, limit: int, window: int) | NoBody

  /** A response; header names are stored lower-cased, as the framework stores them. */
  datatype Response = Response(status: int, body: Body, headers: map<string, string>)

  /** What the rest of the chain produced: a response, or a raised exception. */
  datatype Exception = HttpException(status: int, detail: string) | OtherException(description: string)
  datatype Outcome = Returned(response: Response) | Raised(exc: Exception)

  /** `str(n)` for a Python integer. */
  function IntToString(n: int): (s: string)
    ensures s != []
    ensures n >= 0 ==> s == NatToString(n)
    ensures n < 0 ==> s == "-" + NatToString(-n)
  {
    if n >= 0 then NatToString(n) else "-" + NatToString(-n)
  }

  const RETRY_AFTER_SECONDS: int := 60

  /** The 429 response of the rate-limit middleware. */
  function RateLimitResponse(s: Config.Settings): (r: Response)
    ensures r.status == 429
    ensures r.body == RateLimitBody("Rate limit exceeded", RETRY_AFTER_SECONDS, s.rateLimitRequests, s.rateLimitWindow)
    ensures r.headers.Keys == {"retry-after", "x-ratelimit-limit", "x-ratelimit-window"}
    ensures r.headers["retry-after"] == IntToString(RETRY_AFTER_SECONDS)
    ensures r.headers["x-ratelimit-limit"] == IntToString(s.rateLimitRequests)
    ensures r.headers["x-ratelimit-window"] == IntToString(s.rateLimitWindow)
  {
    Response(429,
             RateLimitBody("Rate limit exceeded", RETRY_AFTER_SECONDS, s.rateLimitRequests, s.rateLimitWindow),
             map["retry-after" := "60",
                 "x-ratelimit-limit" := IntToString(s.rateLimitRequests),
                 "x-ratelimit-window" := IntToString(s.rateLimitWindow)])
  }

  /** `handle_rate_limit_exceeded` around the outcome of `call_next`. */
  function HandleRateLimitExceeded(next: Outcome, s: Config.Settings): (r: Outcome)
    ensures next.Raised? && next.exc.HttpException? && next.exc.status == 429 ==> r == Returned(RateLimitResponse(s))
    ensures !(next.Raised? && next.exc.HttpException? && next.exc.status == 429) ==> r == next
  {
    match next
    case Returned(resp) => next
    case Raised(e) => if e.HttpException? && e.status == 429 then Returned(RateLimitResponse(s)) else next
  }

  /** The middleware never raises a 429 and never changes a normal response. */
  lemma RateLimitMiddlewareShape(next: Outcome, s: Config.Settings)
    ensures var r := HandleRateLimitExceeded(next, s);
      && !(r.Raised? && r.exc.HttpException? && r.exc.status == 429)
      && (next.Returned? ==> r == next)
      && (r.Raised? ==> r == next)
  {
  }

  /** The preflight response and its four headers. */
  const PREFLIGHT_RESPONSE: Response :=
    Response(200, NoBody, map["access-control-allow-origin" := "*",
                              "access-control-allow-methods" := "GET, POST, OPTIONS",
                              "access-control-allow-headers" := "Content-Type, Authorization, x-api-key",
                              "access-control-max-age" := "86400"])

  /**
   * `handle_cors_preflight`: an `OPTIONS` request is answered at once; anything else is what
   * `call_next` produces. `next` stands for that outcome; it is not looked at for `OPTIONS`.
   */
  function HandleCorsPreflight(httpMethod: string, next: Outcome): (r: Outcome)
    ensures httpMethod == "OPTIONS" ==> r == Returned(PREFLIGHT_RESPONSE)
    ensures httpMethod != "OPTIONS" ==> r == next
  {
    if httpMethod == "OPTIONS" then Returned(PREFLIGHT_RESPONSE) else next
  }

  const PREFLIGHT_TYPE_ERROR: Exception :=
    OtherException("TypeError: JSONResponse.__init__() missing required argument 'content'")

  /**
   * `handle_cors_preflight` as written: the `OPTIONS` branch builds a JSON response without
   * its required content argument, so constructing the response raises instead of answering.
   */
  function HandleCorsPreflightAsWritten(httpMethod: string, next: Outcome): (r: Outcome)
    ensures httpMethod == "OPTIONS" ==> r == Raised(PREFLIGHT_TYPE_ERROR)
    ensures httpMethod != "OPTIONS" ==> r == next
  {
    if httpMethod == "OPTIONS" then Raised(PREFLIGHT_TYPE_ERROR) else next
  }

  /** The two versions differ exactly on `OPTIONS`: as written, a preflight never gets its 200. */
  lemma PreflightAsWrittenRaises(httpMethod: string, next: Outcome)
    ensures HandleCorsPreflightAsWritten(httpMethod, next) == HandleCorsPreflight(httpMethod, next)
        <==> httpMethod != "OPTIONS"
    ensures httpMethod == "OPTIONS" ==>
      HandleCorsPreflightAsWritten(httpMethod, next).Raised? && HandleCorsPreflight(httpMethod, next).Returned?
  {
  }

  /** A preflight answer does not depend on the rest of the chain: `call_next` is not called. */
  lemma PreflightSkipsNext(n1: Outcome, n2: Outcome)
    ensures HandleCorsPreflight("OPTIONS", n1) == HandleCorsPreflight("OPTIONS", n2)
    ensures HandleCorsPreflight("OPTIONS", n1).response.status == 200
  {
  }

  // ---------------------------------------------------------------------------------------
  // CORS headers
  // ---------------------------------------------------------------------------------------

  /**
   * The origin `setup_cors_headers` writes, as written: the setting is a string, so both
   * membership tests are substring tests and the fallback is its first character.
   */
  function CorsOriginAsWritten(requestOrigin: Option<string>, allowed: string): (origin: string)
    ensures var asked := if requestOrigin.Some? then requestOrigin.value else "*";
      (allowed == [] || Contains(allowed, "*") || Contains(allowed, asked)) ==> origin == asked
    ensures var asked := if requestOrigin.Some? then requestOrigin.value else "*";
      allowed != [] && !Contains(allowed, "*") && !Contains(allowed, asked) ==> origin == [allowed[0]]
  {
    var origin := if requestOrigin.Some? then requestOrigin.value else "*";
    if allowed != [] && !Contains(allowed, "*") && !Contains(allowed, origin) then
      [allowed[0]]
    else origin
  }

  /**
   * The origin as intended: the setting parsed into its list; an origin outside a list
   * without `*` is replaced by the first listed origin.
   */
  function CorsOrigin(requestOrigin: Option<string>, allowed: string): (origin: string)
    ensures var list := Config.GetAllowedOrigins(allowed);
      list != [] && "*" !in list ==> origin in list
    ensures var list := Config.GetAllowedOrigins(allowed);
      var asked := if requestOrigin.Some? then requestOrigin.value else "*";
      list != [] && "*" !in list && asked !in list ==> origin == list[0]
    ensures var list := Config.GetAllowedOrigins(allowed);
      var asked := if requestOrigin.Some? then requestOrigin.value else "*";
      (list == [] || "*" in list || asked in list) ==> origin == asked
  {
    var origin := if requestOrigin.Some? then requestOrigin.value else "*";
    var list := Config.GetAllowedOrigins(allowed);
    if list != [] && "*" !in list && origin !in list then list[0] else origin
  }

  /** With the default setting both versions echo the request's origin. */
  lemma CorsDefaultAgrees(requestOrigin: Option<string>)
    ensures CorsOrigin(requestOrigin, Config.DEFAULTS.allowedOrigins)
         == CorsOriginAsWritten(requestOrigin, Config.DEFAULTS.allowedOrigins)
  {
    StarEchoesAsWritten(requestOrigin);
    DefaultListEchoes(requestOrigin);
  }

  lemma StarEchoesAsWritten(requestOrigin: Option<string>)
    ensures CorsOriginAsWritten(requestOrigin, "*") == if requestOrigin.Some? then requestOrigin.value else "*"
  {
    assert StartsAt("*", "*", 0);
    ContainsAt("*", "*", 0);
  }

  lemma DefaultListEchoes(requestOrigin: Option<string>)
    ensures CorsOrigin(requestOrigin, Config.DEFAULTS.allowedOrigins)
         == if requestOrigin.Some? then requestOrigin.value else "*"
  {
    Config.DefaultOrigins();
    assert "*" in ["*"];
  }

  /** A pattern as long as the text occurs in it only as the text itself. */
  lemma SameLengthContains(s: string, p: string)
    requires |p| == |s|
    ensures Contains(s, p) ==> s == p
  {
    if Contains(s, p) {
      var k := FindFrom(s, p, 0);
      assert k == 0;
      assert s[0..|p|] == s;
    }
  }

  /** A setting naming one origin, without commas, parses to that origin alone. */
  lemma OneOrigin(a: string)
    requires a != [] && NoSpaceEdges(a) && ',' !in a
    ensures Config.GetAllowedOrigins(a) == [a]
  {
    ContainsChar(a, ',');
    Config.SingleOrigin(a);
  }

  /**
   * As written, an origin outside a one-origin setting is answered with the first character
   * of the setting, which is no allowed origin; the corrected choice answers the origin.
   */
  lemma FallbackIsFirstCharacter(a: string, asked: string)
    requires |a| >= 2 && NoSpaceEdges(a) && ',' !in a && '*' !in a && !Contains(a, asked)
    ensures CorsOriginAsWritten(Some(asked), a) == [a[0]]
    ensures [a[0]] !in Config.GetAllowedOrigins(a)
    ensures CorsOrigin(Some(asked), a) == a
  {
    OneOrigin(a);
    ContainsChar(a, '*');
    ContainsAt(a, a, 0);
    assert |[a[0]]| != |a| && |"*"| != |a|;
  }

  /**
   * As written, any fragment of a one-origin setting passes as allowed and is echoed back;
   * the corrected choice answers the listed origin instead.
   */
  lemma FragmentIsAccepted(a: string, fragment: string)
    requires |a| >= 2 && NoSpaceEdges(a) && ',' !in a && '*' !in a
    requires Contains(a, fragment) && |fragment| < |a|
    ensures CorsOriginAsWritten(Some(fragment), a) == fragment
    ensures fragment !in Config.GetAllowedOrigins(a)
    ensures CorsOrigin(Some(fragment), a) == a
  {
    OneOrigin(a);
    ContainsChar(a, '*');
    assert |"*"| != |a| && fragment != a;
    assert "*" !in [a] && fragment !in [a];
  }

  const SAMPLE_ALLOWED: string := "https://a.com"
  const SAMPLE_OTHER: string := "https://b.com"
  const SAMPLE_FRAGMENT: string := "https://a"

  /** The sample setting is one origin without commas or `*`. */
  lemma SampleSetting()
    ensures |SAMPLE_ALLOWED| >= 2 && NoSpaceEdges(SAMPLE_ALLOWED)
    ensures ',' !in SAMPLE_ALLOWED && '*' !in SAMPLE_ALLOWED
  {
  }

  /** The two sample origins differ at the same length, so neither occurs in the other. */
  lemma SampleOtherAbsent()
    ensures !Contains(SAMPLE_ALLOWED, SAMPLE_OTHER)
  {
    SameLengthContains(SAMPLE_ALLOWED, SAMPLE_OTHER);
    assert SAMPLE_ALLOWED[8] != SAMPLE_OTHER[8];
  }

  lemma SampleFragment()
    ensures Contains(SAMPLE_ALLOWED, SAMPLE_FRAGMENT) && |SAMPLE_FRAGMENT| < |SAMPLE_ALLOWED|
  {
    assert SAMPLE_ALLOWED == SAMPLE_FRAGMENT + ".com";
    assert StartsAt(SAMPLE_ALLOWED, SAMPLE_FRAGMENT, 0);
    ContainsAt(SAMPLE_ALLOWED, SAMPLE_FRAGMENT, 0);
  }

  /** As written, the setting `https://a.com` answers the origin `https://b.com` with `h`. */
  lemma CorsFallbackIsFirstCharacter()
    ensures CorsOriginAsWritten(Some(SAMPLE_OTHER), SAMPLE_ALLOWED) == "h"
    ensures "h" !in Config.GetAllowedOrigins(SAMPLE_ALLOWED)
    ensures CorsOrigin(Some(SAMPLE_OTHER), SAMPLE_ALLOWED) == SAMPLE_ALLOWED
  {
    SampleSetting();
    SampleOtherAbsent();
    FallbackIsFirstCharacter(SAMPLE_ALLOWED, SAMPLE_OTHER);
    assert [SAMPLE_ALLOWED[0]] == "h";
  }

  /** As written, the setting `https://a.com` accepts and echoes the origin `https://a`. */
  lemma CorsSubstringAccepted()
    ensures CorsOriginAsWritten(Some(SAMPLE_FRAGMENT), SAMPLE_ALLOWED) == SAMPLE_FRAGMENT
    ensures SAMPLE_FRAGMENT !in Config.GetAllowedOrigins(SAMPLE_ALLOWED)
    ensures CorsOrigin(Some(SAMPLE_FRAGMENT), SAMPLE_ALLOWED) == SAMPLE_ALLOWED
  {
    SampleSetting();
    SampleFragment();
    FragmentIsAccepted(SAMPLE_ALLOWED, SAMPLE_FRAGMENT);
  }

  const ALLOW_METHODS: string := "GET, POST, OPTIONS"
  const ALLOW_HEADERS: string := "Content-Type, Authorization, x-api-key"

  predicate IsCorsHeader(k: string) {
    k == "access-control-allow-origin" || k == "access-control-allow-methods"
    || k == "access-control-allow-headers" || k == "access-control-allow-credentials"
  }

  /** The headers after `setup_cors_headers`: four entries set, every other one left alone. */
  function WithCors(headers: map<string, string>, origin: string): (r: map<string, string>)
    ensures r.Keys == headers.Keys + {"access-control-allow-origin", "access-control-allow-methods",
                                      "access-control-allow-headers", "access-control-allow-credentials"}
    ensures r["access-control-allow-origin"] == origin
    ensures r["access-control-allow-methods"] == ALLOW_METHODS
    ensures r["access-control-allow-headers"] == ALLOW_HEADERS
    ensures r["access-control-allow-credentials"] == "true"
    ensures forall k :: k in headers && !IsCorsHeader(k) ==> r[k] == headers[k]
  {
    headers["access-control-allow-origin" := origin]["access-control-allow-methods" := ALLOW_METHODS]
           ["access-control-allow-headers" := ALLOW_HEADERS]["access-control-allow-credentials" := "true"]
  }

  /** The mutable headers of a response. */
  class ResponseHeaders {
    var entries: map<string, string>

    constructor (initial: map<string, string>)
      ensures entries == initial
    {
      entries := initial;
    }

    /**
     * `setup_cors_headers(response, request)`, as written: the origin is chosen by the
     * substring tests of `CorsOriginAsWritten`; `CorsOrigin` is the intended choice.
     */
    method SetupCorsHeaders(requestHeaders: RequestHeaders, allowed: string)
      modifies this
      ensures entries == WithCors(old(entries), CorsOriginAsWritten(HeaderGet(requestHeaders, "Origin"), allowed))
    {
      var origin := CorsOriginAsWritten(HeaderGet(requestHeaders, "Origin"), allowed);
      entries := entries["access-control-allow-origin" := origin];
      entries := entries["access-control-allow-methods" := ALLOW_METHODS];
      entries := entries["access-control-allow-headers" := ALLOW_HEADERS];
      entries := entries["access-control-allow-credentials" := "true"];
    }
  }
}
