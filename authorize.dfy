/**
 * The authorization redirect builder (pages/api/authorize.ts): it checks the
 * configured client id and the `redirect_uri` query value, then redirects the
 * browser to the identity provider's authorize endpoint with a fixed, ordered list
 * of query pairs and an optional trailing `state`.
 *
 * The environment variable and the query values are parameters; the Next.js
 * response is the returned `Outcome`.
 */
module Authorize {
  import opened Wrappers
  import opened UrlEncoding

  /** The identity provider's authorize endpoint, as the URL serializes it. */
  const AuthorizeEndpoint := "https://auth.atlassian.com/authorize"
  const Scope := "read:jira-user read:jira-work write:jira-work"
  const Audience := "api.atlassian.com"
  const MissingClientId := "Missing required environment variable: ATLASSIAN_CLIENT_ID"
  const InvalidRedirectUri := "Missing or invalid redirect_uri parameter"
  /** The status Next.js uses for `res.redirect(url)` when none is given. */
  const RedirectStatus := 307

  /** One key of a parsed Next.js query: absent, given once, or repeated (an array). */
  datatype QueryValue = Absent | One(value: string) | Many(values: seq<string>)

  /** A redirect, or a JSON body `{ error }` with a status. */
  datatype Outcome = Redirect(status: int, location: string) | JsonError(status: int, error: string)

  /** JavaScript's `v && typeof v === 'string'` on a query value. */
  predicate IsNonEmptyString(v: QueryValue) {
    v.One? && v.value != []
  }

  /** `!clientId` on the environment variable: unset or empty. */
  predicate IsConfigured(clientId: Option<string>) {
    clientId.Some? && clientId.value != []
  }

  /** The `state` pair, present only for a non-empty single string. */
  function StatePairs(state: QueryValue): seq<Pair> {
    if IsNonEmptyString(state) then [("state", state.value)] else []
  }

  /** The URLSearchParams list: six fixed-order pairs, then the optional state. */
  function AuthorizeParams(clientId: string, redirectUri: string, state: QueryValue): (r: seq<Pair>)
    ensures |r| == 7 <==> IsNonEmptyString(state)
    ensures |r| == 6 || |r| == 7
    ensures r[1].1 == clientId && r[2].1 == redirectUri
    ensures |r| == 7 ==> r[6] == ("state", state.value)
    ensures forall i, j | 0 <= i < j < |r| :: r[i].0 != r[j].0
  {
    [("response_type", "code"),
     ("client_id", clientId),
     ("redirect_uri", redirectUri),
     ("scope", Scope),
     ("audience", Audience),
     ("prompt", "consent")]
    + StatePairs(state)
  }

  /** The handler: configuration first, then `redirect_uri`, then the redirect. */
  function Handle(clientId: Option<string>, redirectUri: QueryValue, state: QueryValue): (r: Outcome)
    ensures !IsConfigured(clientId) <==> r == JsonError(500, MissingClientId)
    ensures IsConfigured(clientId) && !IsNonEmptyString(redirectUri) <==> r == JsonError(400, InvalidRedirectUri)
    ensures r.Redirect? <==> IsConfigured(clientId) && IsNonEmptyString(redirectUri)
    ensures r.Redirect? ==> r.status == RedirectStatus
  {
    if !IsConfigured(clientId) then
      JsonError(500, MissingClientId)
    else if !IsNonEmptyString(redirectUri) then
      JsonError(400, InvalidRedirectUri)
    else
      var params := AuthorizeParams(clientId.value, redirectUri.value, state);
      Redirect(RedirectStatus, WithSearch(AuthorizeEndpoint, Serialize(params)))
  }

  /** The part of a location after the endpoint and its `?`. */
  function QueryOf(location: string): string {
    if |location| > |AuthorizeEndpoint| then location[|AuthorizeEndpoint| + 1..] else []
  }

  lemma RedirectQueryIsParams(clientId: string, redirectUri: string, state: QueryValue)
    requires clientId != [] && redirectUri != []
    ensures var r := Handle(Some(clientId), One(redirectUri), state);
      && r.Redirect?
      && r.location[..|AuthorizeEndpoint| + 1] == AuthorizeEndpoint + "?"
      && Parse(QueryOf(r.location)) == Some(AuthorizeParams(clientId, redirectUri, state))
  {
    var params := AuthorizeParams(clientId, redirectUri, state);
    var query := Serialize(params);
    SearchKeepsSerialization(AuthorizeEndpoint, params);
    var location := AuthorizeEndpoint + "?" + query;
    assert Handle(Some(clientId), One(redirectUri), state) == Redirect(RedirectStatus, location);
    assert location[..|AuthorizeEndpoint| + 1] == AuthorizeEndpoint + "?";
    assert QueryOf(location) == query;
    ParseSerialize(params);
  }

  /**
   * A successful redirect goes to the authorize endpoint, and its query decodes to
   * exactly the six fixed pairs in order, followed by `state` only when it is a
   * non-empty string, whatever characters the values hold.
   */
  lemma RedirectQueryDecodes(clientId: string, redirectUri: string, state: QueryValue)
    requires clientId != [] && redirectUri != []
    ensures var r := Handle(Some(clientId), One(redirectUri), state);
      && r.Redirect?
      && r.location[..|AuthorizeEndpoint| + 1] == AuthorizeEndpoint + "?"
      && Parse(QueryOf(r.location)) == Some(
           [("response_type", "code"),
            ("client_id", clientId),
            ("redirect_uri", redirectUri),
            ("scope", "read:jira-user read:jira-work write:jira-work"),
            ("audience", "api.atlassian.com"),
            ("prompt", "consent")]
           + (if state.One? && state.value != [] then [("state", state.value)] else []))
  {
    RedirectQueryIsParams(clientId, redirectUri, state);
  }

  /**
   * The redirect location determines the inputs it was built from: two calls that
   * redirect to the same location had the same client id, the same `redirect_uri`
   * and the same effective `state`.
   */
  lemma RedirectDeterminesInputs(c1: string, u1: string, s1: QueryValue, c2: string, u2: string, s2: QueryValue)
    requires c1 != [] && u1 != [] && c2 != [] && u2 != []
    ensures Handle(Some(c1), One(u1), s1) == Handle(Some(c2), One(u2), s2) ==>
              c1 == c2 && u1 == u2 && StatePairs(s1) == StatePairs(s2)
  {
    if Handle(Some(c1), One(u1), s1) == Handle(Some(c2), One(u2), s2) {
      RedirectQueryIsParams(c1, u1, s1);
      RedirectQueryIsParams(c2, u2, s2);
      ParamsDetermineInputs(c1, u1, s1, c2, u2, s2);
    }
  }

  lemma ParamsDetermineInputs(c1: string, u1: string, s1: QueryValue, c2: string, u2: string, s2: QueryValue)
    requires AuthorizeParams(c1, u1, s1) == AuthorizeParams(c2, u2, s2)
    ensures c1 == c2 && u1 == u2 && StatePairs(s1) == StatePairs(s2)
  {
    var p1, p2 := AuthorizeParams(c1, u1, s1), AuthorizeParams(c2, u2, s2);
    assert p1[1].1 == c1 && p2[1].1 == c2;
    assert p1[2].1 == u1 && p2[2].1 == u2;
    assert p1[6..] == StatePairs(s1) && p2[6..] == StatePairs(s2);
  }
}
