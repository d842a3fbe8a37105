/**
 * The token exchange handler (pages/api/token.ts): an OAuth 2.0 authorization-code
 * grant (section 4.1.3 of RFC 6749) followed by a lookup of the caller's cloud id.
 *
 * The handler is a chain of early-return guards around two sequential upstream
 * calls. Each call's outcome (it threw, or it answered with an `ok` flag and a body
 * that may or may not be JSON) is an input; the handler becomes a function to the
 * reply it sends and the list of upstream calls it issued, in order.
 */
module TokenExchange {
  import opened Wrappers
  import opened Js

  const TokenEndpoint := "https://auth.atlassian.com/oauth/token"
  const ResourcesEndpoint := "https://api.atlassian.com/oauth/token/accessible-resources"
  const MethodNotAllowed := "Method not allowed"
  const ExchangeFailed := "Failed to exchange token"
  const CloudIdFailed := "Failed to get cloud ID"
  const AuthenticationFailed := "Failed to complete authentication"

  /** The parts of the Next.js request the handler reads: the HTTP method and the parsed body. */
  datatype Request = Request(verb: string, body: Value)

  /** One awaited `fetch` followed by `.json()`: it threw (network failure), or the
      response came back with its `ok` flag and its body parsed as JSON, None when the
      body is not JSON and `.json()` rejects. */
  datatype FetchOutcome = Threw | Responded(ok: bool, json: Option<Value>)

  /** The upstream requests the handler issues. */
  datatype UpstreamCall =
      /** POST to TokenEndpoint with Content-Type application/json and this body,
          serialized with its keys in this order. */
    | TokenRequest(grant: seq<(string, Value)>)
      /** GET of ResourcesEndpoint with `Authorization: Bearer ` followed by this value. */
    | ResourcesRequest(bearer: Value)

  datatype Body =
    | ErrorBody(error: string)
    | Granted(accessToken: Value, tokenType: string, expiresIn: Value, refreshToken: Value, cloudId: Value)

  /** What reaches the client: a JSON reply, or a TypeError that escapes the handler
      (the destructuring of the request body stands outside its try block), which the
      framework turns into its own error response. */
  datatype Reply = Json(status: int, body: Body) | Uncaught

  datatype Run = Run(reply: Reply, calls: seq<UpstreamCall>)

  function Fail(status: int, error: string): Reply {
    Json(status, ErrorBody(error))
  }

  /** `!clientSecret` on the environment variable, negated: set and non-empty. */
  predicate SecretConfigured(clientSecret: Option<string>) {
    clientSecret.Some? && clientSecret.value != []
  }

  predicate CallerFieldsPresent(body: Value)
    requires !Nullish(body)
  {
    Truthy(Get(body, "code")) && Truthy(Get(body, "redirect_uri")) && Truthy(Get(body, "client_id"))
  }

  /** The guards before the first upstream call all pass. */
  predicate ReachesTokenRequest(req: Request, clientSecret: Option<string>) {
    req.verb == "POST" && !Nullish(req.body) && CallerFieldsPresent(req.body) && SecretConfigured(clientSecret)
  }

  /** The JSON body of the grant: the caller's fields and the configured secret. */
  function Grant(body: Value, clientSecret: string): (r: seq<(string, Value)>)
    requires !Nullish(body)
    ensures forall i, j | 0 <= i < j < |r| :: r[i].0 != r[j].0
    ensures forall i | 0 <= i < |r| && r[i].0 in {"client_id", "code", "redirect_uri"} :: r[i].1 == Get(body, r[i].0)
    ensures forall i | 0 <= i < |r| && r[i].0 == "client_secret" :: r[i].1 == Str(clientSecret)
    ensures forall i | 0 <= i < |r| && r[i].0 == "grant_type" :: r[i].1 == Str("authorization_code")
  {
    var r := [("grant_type", Str("authorization_code")),
              ("client_id", Get(body, "client_id")),
              ("client_secret", Str(clientSecret)),
              ("code", Get(body, "code")),
              ("redirect_uri", Get(body, "redirect_uri"))];
    assert r[0].0 == "grant_type" && r[1].0 == "client_id" && r[2].0 == "client_secret"
        && r[3].0 == "code" && r[4].0 == "redirect_uri";
    r
  }

  /** The grant names exactly the five fields of an authorization-code token request. */
  lemma GrantNames(body: Value, clientSecret: string)
    requires !Nullish(body)
    ensures var g := Grant(body, clientSecret);
      (set i | 0 <= i < |g| :: g[i].0) == {"grant_type", "client_id", "client_secret", "code", "redirect_uri"}
  {
    var g := Grant(body, clientSecret);
    assert g[0].0 == "grant_type" && g[1].0 == "client_id" && g[2].0 == "client_secret";
    assert g[3].0 == "code" && g[4].0 == "redirect_uri";
  }

  /** The token response passes the check: ok, JSON, an object-like value with a truthy
      `access_token` and a truthy `expires_in`. */
  predicate TokenAccepted(step: FetchOutcome) {
    && step.Responded? && step.ok && step.json.Some? && !Nullish(step.json.value)
    && Truthy(Get(step.json.value, "access_token")) && Truthy(Get(step.json.value, "expires_in"))
  }

  /** The `Authorization` header can be built: the accepted token's `access_token`
      converts to a string without throwing. */
  predicate BearerBuilds(step: FetchOutcome)
    requires TokenAccepted(step)
  {
    Stringifiable(Get(step.json.value, "access_token"))
  }

  /** The resources response passes the check: ok, JSON, a non-empty list whose first
      entry has a truthy `id`. */
  predicate ResourcesAccepted(step: FetchOutcome) {
    && step.Responded? && step.ok && step.json.Some? && !Nullish(step.json.value)
    && Truthy(Get(step.json.value, "length"))
    && !Nullish(First(step.json.value)) && Truthy(Get(First(step.json.value), "id"))
  }

  /** The second half of the handler, once the token data passed its check. */
  function ResolveCloudId(tokenData: Value, resourcesStep: FetchOutcome): (r: Reply)
    requires !Nullish(tokenData)
    ensures r.Json? && r.status == 200 <==> ResourcesAccepted(resourcesStep)
    ensures r.Json? && r.status != 200 ==> r.status == 500 && r.body.ErrorBody?
  {
    match resourcesStep
    case Threw => Fail(500, AuthenticationFailed)
    case Responded(ok, json) =>
      if json.None? then Fail(500, AuthenticationFailed)
      else
        var resources := json.value;
        if !ok then Fail(500, CloudIdFailed)
        else if Nullish(resources) then Fail(500, AuthenticationFailed)
        else if !Truthy(Get(resources, "length")) then Fail(500, CloudIdFailed)
        else if Nullish(First(resources)) then Fail(500, AuthenticationFailed)
        else if !Truthy(Get(First(resources), "id")) then Fail(500, CloudIdFailed)
        else
          Json(200, Granted(
            Get(tokenData, "access_token"),
            "Bearer",
            Get(tokenData, "expires_in"),
            Or(Get(tokenData, "refresh_token"), Str("")),
            Get(First(resources), "id")))
  }

  /** The handler. */
  function Handle(req: Request, clientSecret: Option<string>, tokenStep: FetchOutcome, resourcesStep: FetchOutcome): (r: Run)
    ensures |r.calls| <= 2
    ensures r.calls == [] <==> !ReachesTokenRequest(req, clientSecret)
    ensures r.calls != [] ==> r.calls[0] == TokenRequest(Grant(req.body, clientSecret.value))
    ensures |r.calls| == 2 <==>
              ReachesTokenRequest(req, clientSecret) && TokenAccepted(tokenStep) && BearerBuilds(tokenStep)
    ensures |r.calls| == 2 ==> r.calls[1] == ResourcesRequest(Get(tokenStep.json.value, "access_token"))
    ensures r.reply.Uncaught? <==> req.verb == "POST" && Nullish(req.body)
    ensures r.reply.Json? ==> r.reply.status in {200, 405, 500}
    ensures r.reply.Json? && r.reply.status == 200 <==>
              && ReachesTokenRequest(req, clientSecret) && TokenAccepted(tokenStep) && BearerBuilds(tokenStep)
              && ResourcesAccepted(resourcesStep)
  {
    if req.verb != "POST" then
      Run(Fail(405, MethodNotAllowed), [])
    else if Nullish(req.body) then
      Run(Uncaught, [])
    else if !CallerFieldsPresent(req.body) || !SecretConfigured(clientSecret) then
      Run(Fail(500, ExchangeFailed), [])
    else
      var tokenCall := TokenRequest(Grant(req.body, clientSecret.value));
      match tokenStep
      case Threw => Run(Fail(500, AuthenticationFailed), [tokenCall])
      case Responded(ok, json) =>
        if json.None? then Run(Fail(500, AuthenticationFailed), [tokenCall])
        else
          var tokenData := json.value;
          if !ok then Run(Fail(500, ExchangeFailed), [tokenCall])
          else if Nullish(tokenData) then Run(Fail(500, AuthenticationFailed), [tokenCall])
          else if !Truthy(Get(tokenData, "access_token")) || !Truthy(Get(tokenData, "expires_in")) then
            Run(Fail(500, ExchangeFailed), [tokenCall])
          else if !Stringifiable(Get(tokenData, "access_token")) then
            Run(Fail(500, AuthenticationFailed), [tokenCall])
          else
            var resourcesCall := ResourcesRequest(Get(tokenData, "access_token"));
            Run(ResolveCloudId(tokenData, resourcesStep), [tokenCall, resourcesCall])
  }

  // ---------------------------------------------------------------------------
  // Properties of the guard chain

  /** Any method but POST: 405, and nothing is sent upstream. */
  lemma NonPostRejected(req: Request, clientSecret: Option<string>, tokenStep: FetchOutcome, resourcesStep: FetchOutcome)
    requires req.verb != "POST"
    ensures Handle(req, clientSecret, tokenStep, resourcesStep) == Run(Fail(405, MethodNotAllowed), [])
  {
  }

  /** A falsy `code`, `redirect_uri` or `client_id`, or no configured secret: 500 (not
      400, even for the caller's own fields), and nothing is sent upstream. */
  lemma MissingFieldsRejected(req: Request, clientSecret: Option<string>, tokenStep: FetchOutcome, resourcesStep: FetchOutcome)
    requires req.verb == "POST" && !Nullish(req.body)
    requires !CallerFieldsPresent(req.body) || !SecretConfigured(clientSecret)
    ensures Handle(req, clientSecret, tokenStep, resourcesStep) == Run(Fail(500, ExchangeFailed), [])
  {
  }

  /** The grant carries `grant_type=authorization_code`, the caller's `client_id`, `code`
      and `redirect_uri`, and the configured secret: a `client_secret` in the request
      body changes nothing the handler does. */
  lemma SecretOnlyFromConfiguration(verb: string, props: map<string, Value>, forged: Value,
                                    clientSecret: Option<string>, tokenStep: FetchOutcome, resourcesStep: FetchOutcome)
    ensures Handle(Request(verb, Obj(props)), clientSecret, tokenStep, resourcesStep)
         == Handle(Request(verb, Obj(props["client_secret" := forged])), clientSecret, tokenStep, resourcesStep)
  {
    var b1, b2 := Obj(props), Obj(props["client_secret" := forged]);
    assert Get(b1, "code") == Get(b2, "code");
    assert Get(b1, "redirect_uri") == Get(b2, "redirect_uri");
    assert Get(b1, "client_id") == Get(b2, "client_id");
    assert CallerFieldsPresent(b1) == CallerFieldsPresent(b2);
    if clientSecret.Some? {
      assert Grant(b1, clientSecret.value) == Grant(b2, clientSecret.value);
    }
  }

  /** Which configured secret is used reaches the grant only: the reply is the same. */
  lemma ReplyIndependentOfSecret(req: Request, s1: string, s2: string, tokenStep: FetchOutcome, resourcesStep: FetchOutcome)
    requires s1 != [] && s2 != []
    ensures Handle(req, Some(s1), tokenStep, resourcesStep).reply == Handle(req, Some(s2), tokenStep, resourcesStep).reply
  {
  }

  /** A token response that is not ok, or lacks a truthy `access_token` or `expires_in`
      (so `expires_in: 0` fails too): 500 "Failed to exchange token", and the resources
      call is not made. */
  lemma TokenRejected(req: Request, clientSecret: Option<string>, ok: bool, data: Value, resourcesStep: FetchOutcome)
    requires ReachesTokenRequest(req, clientSecret)
    requires !ok || (!Nullish(data) && (!Truthy(Get(data, "access_token")) || !Truthy(Get(data, "expires_in"))))
    ensures var r := Handle(req, clientSecret, Responded(ok, Some(data)), resourcesStep);
      r.reply == Fail(500, ExchangeFailed) && |r.calls| == 1
  {
  }

  /** The token step succeeded but the resources response is not ok, is an empty list,
      or its first entry has a falsy `id`: 500 "Failed to get cloud ID"; nothing of the
      token is returned. */
  lemma CloudIdRejected(req: Request, clientSecret: Option<string>, tokenStep: FetchOutcome, ok: bool, resources: Value)
    requires ReachesTokenRequest(req, clientSecret) && TokenAccepted(tokenStep) && BearerBuilds(tokenStep)
    requires !ok || (!Nullish(resources) && (!Truthy(Get(resources, "length"))
                     || (!Nullish(First(resources)) && !Truthy(Get(First(resources), "id")))))
    ensures var r := Handle(req, clientSecret, tokenStep, Responded(ok, Some(resources)));
      r.reply == Fail(500, CloudIdFailed) && |r.calls| == 2
  {
  }

  /** A call that throws, a body that is not JSON, a property read on `null` or on a
      missing first resource, or an `access_token` that cannot be converted to a
      string for the header: 500 "Failed to complete authentication". */
  lemma ExceptionsCaught(req: Request, clientSecret: Option<string>, tokenStep: FetchOutcome, resourcesStep: FetchOutcome)
    requires ReachesTokenRequest(req, clientSecret)
    requires || tokenStep.Threw?
             || (tokenStep.Responded? && tokenStep.json.None?)
             || (tokenStep.Responded? && tokenStep.ok && tokenStep.json == Some(Null))
             || (TokenAccepted(tokenStep) && !BearerBuilds(tokenStep))
             || (TokenAccepted(tokenStep) && BearerBuilds(tokenStep) && (resourcesStep.Threw? || resourcesStep.json.None?))
             || (&& TokenAccepted(tokenStep) && BearerBuilds(tokenStep)
                 && resourcesStep.Responded? && resourcesStep.ok && resourcesStep.json.Some?
                 && (|| Nullish(resourcesStep.json.value)
                     || (Truthy(Get(resourcesStep.json.value, "length")) && Nullish(First(resourcesStep.json.value)))))
    ensures Handle(req, clientSecret, tokenStep, resourcesStep).reply == Fail(500, AuthenticationFailed)
  {
  }

  /** The only way to 200: both calls were made and both answered ok; the record holds
      the token data's `access_token` and `expires_in`, token type "Bearer", the
      `refresh_token` or "" when it is falsy (never null), and the first resource's id. */
  lemma SuccessRecord(req: Request, clientSecret: Option<string>, tokenStep: FetchOutcome, resourcesStep: FetchOutcome)
    requires Handle(req, clientSecret, tokenStep, resourcesStep).reply.Json?
    requires Handle(req, clientSecret, tokenStep, resourcesStep).reply.status == 200
    ensures var r := Handle(req, clientSecret, tokenStep, resourcesStep);
      var data, resources := tokenStep.json.value, resourcesStep.json.value;
      && |r.calls| == 2
      && tokenStep.Responded? && tokenStep.ok && resourcesStep.Responded? && resourcesStep.ok
      && r.reply.body == Granted(
           Get(data, "access_token"),
           "Bearer",
           Get(data, "expires_in"),
           Or(Get(data, "refresh_token"), Str("")),
           Get(First(resources), "id"))
      && Truthy(r.reply.body.accessToken) && Truthy(r.reply.body.cloudId)
      && (Truthy(r.reply.body.refreshToken) || r.reply.body.refreshToken == Str(""))
  {
  }

  /** A worked run: the provider answers `{access_token: "T", refresh_token: "R",
      expires_in: 3600}` and the resources call answers `[{id: "C"}]`, whatever the
      configured secret. */
  lemma ExampleExchange(secret: string)
    requires secret != []
    ensures var body := Obj(map["code" := Str("abc"), "redirect_uri" := Str("https://x/cb"), "client_id" := Str("id")]);
      var token := Obj(map["access_token" := Str("T"), "refresh_token" := Str("R"), "expires_in" := Num(3600.0)]);
      var resources := Arr([Obj(map["id" := Str("C")])]);
      Handle(Request("POST", body), Some(secret), Responded(true, Some(token)), Responded(true, Some(resources)))
      == Run(Json(200, Granted(Str("T"), "Bearer", Num(3600.0), Str("R"), Str("C"))),
             [TokenRequest([("grant_type", Str("authorization_code")), ("client_id", Str("id")),
                            ("client_secret", Str(secret)), ("code", Str("abc")),
                            ("redirect_uri", Str("https://x/cb"))]),
              ResourcesRequest(Str("T"))])
  {
    var body := Obj(map["code" := Str("abc"), "redirect_uri" := Str("https://x/cb"), "client_id" := Str("id")]);
    var token := Obj(map["access_token" := Str("T"), "refresh_token" := Str("R"), "expires_in" := Num(3600.0)]);
    var resources := Arr([Obj(map["id" := Str("C")])]);
    ExampleRequest(secret);
    ExampleToken();
    ExampleResources();
    BothAccepted(Request("POST", body), Some(secret), Responded(true, Some(token)), Responded(true, Some(resources)));
  }

  lemma ExampleRequest(secret: string)
    requires secret != []
    ensures var body := Obj(map["code" := Str("abc"), "redirect_uri" := Str("https://x/cb"), "client_id" := Str("id")]);
      && ReachesTokenRequest(Request("POST", body), Some(secret))
      && Grant(body, secret) == [("grant_type", Str("authorization_code")), ("client_id", Str("id")),
                                 ("client_secret", Str(secret)), ("code", Str("abc")),
                                 ("redirect_uri", Str("https://x/cb"))]
  {
    var body := Obj(map["code" := Str("abc"), "redirect_uri" := Str("https://x/cb"), "client_id" := Str("id")]);
    assert Get(body, "client_id") == Str("id") && Get(body, "code") == Str("abc");
    assert Get(body, "redirect_uri") == Str("https://x/cb");
  }

  lemma ExampleToken()
    ensures var token := Obj(map["access_token" := Str("T"), "refresh_token" := Str("R"), "expires_in" := Num(3600.0)]);
      && TokenAccepted(Responded(true, Some(token))) && BearerBuilds(Responded(true, Some(token)))
      && Get(token, "access_token") == Str("T") && Get(token, "expires_in") == Num(3600.0)
      && Or(Get(token, "refresh_token"), Str("")) == Str("R")
  {
    var token := Obj(map["access_token" := Str("T"), "refresh_token" := Str("R"), "expires_in" := Num(3600.0)]);
    assert Get(token, "access_token") == Str("T") && Get(token, "expires_in") == Num(3600.0);
    assert Get(token, "refresh_token") == Str("R");
  }

  lemma ExampleResources()
    ensures var resources := Arr([Obj(map["id" := Str("C")])]);
      ResourcesAccepted(Responded(true, Some(resources))) && Get(First(resources), "id") == Str("C")
  {
    var entry := Obj(map["id" := Str("C")]);
    assert First(Arr([entry])) == entry && Get(entry, "id") == Str("C");
  }

  /** The run once every guard has passed: both calls, then the success record. */
  lemma BothAccepted(req: Request, clientSecret: Option<string>, tokenStep: FetchOutcome, resourcesStep: FetchOutcome)
    requires ReachesTokenRequest(req, clientSecret) && TokenAccepted(tokenStep) && BearerBuilds(tokenStep)
    requires ResourcesAccepted(resourcesStep)
    ensures var data, resources := tokenStep.json.value, resourcesStep.json.value;
      Handle(req, clientSecret, tokenStep, resourcesStep)
      == Run(Json(200, Granted(Get(data, "access_token"), "Bearer", Get(data, "expires_in"),
                               Or(Get(data, "refresh_token"), Str("")), Get(First(resources), "id"))),
             [TokenRequest(Grant(req.body, clientSecret.value)), ResourcesRequest(Get(data, "access_token"))])
  {
  }
}
