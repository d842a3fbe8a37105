# Jira GPT proxy: the OAuth entry points in Dafny

This project models the two OAuth entry points of the Jira GPT proxy, a Next.js
service. It lets an AI agent, acting as an OpenAI plugin, reach an Atlassian Jira
instance. The two entry points are:

- **The authorization redirect builder** (`pages/api/authorize.ts`). It checks the
  configured client id (`ATLASSIAN_CLIENT_ID`) and the caller's `redirect_uri`
  query value, then redirects to `https://auth.atlassian.com/authorize`. The
  redirect's query holds six pairs in a fixed order: `response_type=code`,
  `client_id`, `redirect_uri`, the fixed `scope`, `audience=api.atlassian.com` and
  `prompt=consent`. A non-empty `state` comes last.
- **The token exchange** (`pages/api/token.ts`). It is an OAuth 2.0
  authorization-code grant (section 4.1.3 of RFC 6749) with the client secret
  taken from configuration. A second call then resolves the cloud id from the
  accessible-resources endpoint. Its early-return guards all yield 405 or 500.
  It sends a success record only when both upstream calls succeed.

Both handlers are modelled as pure functions.

The redirect builder depends on the WHATWG URL Standard, and the model includes
that part of it:
- the percent-encode sets and "percent-encode after encoding" (section 1.3);
- the application/x-www-form-urlencoded serializer and parser (sections 5.2 and
  5.1), as URLSearchParams uses them;
- the `search` setter (section 6.1);
- UTF-8 encoding and strict decoding, which the serializer and parser rest on.

The main result here is the round trip: parsing the serialized query gives back
exactly the pairs that were put in. This holds whatever characters the values
hold.

The token handler's upstream calls are inputs. Each call either threw, or
answered with an `ok` flag and a body that either parsed as JSON or did not. The
handler returns the reply it sends and the list of upstream calls it issued.
JavaScript truthiness and property access on the parsed values are modelled
explicitly (module `Js`). This is what makes guards such as `!tokenData.expires_in`
and `!resources.length` behave as in the source.

Files: `wrappers.dfy` (Option), `utf8.dfy`, `url_encoding.dfy`, `authorize.dfy`,
`js.dfy`, `token_exchange.dfy`.

Four behaviours of the code are easy to miss; the model follows the code in each:
- Missing `code`, `redirect_uri` or `client_id` gives 500 "Failed to exchange
  token", not a 400 (`pages/api/token.ts:35-36`).
- A rejected token response gives the fixed message "Failed to exchange token".
  The provider's `error` / `error_description` are not passed on
  (`pages/api/token.ts:57-59`).
- The request body is destructured outside the `try` block
  (`pages/api/token.ts:32`). A JSON `null` body therefore throws a TypeError out
  of the handler. The model calls this outcome `Uncaught`.
- `tokenResponse.json()` is awaited before `ok` is checked
  (`pages/api/token.ts:55-57`). A failed token response whose body is not JSON
  therefore gives "Failed to complete authentication", not "Failed to exchange
  token".

## Model

| member | source | states |
|---|---|---|
| Utf8.Encode | pages/api/authorize.ts:29-45 | UTF-8 encoding never shortens a string; an ASCII string encodes to the same code units, one byte each |
| Utf8.DecodeEncodeScalar | pages/api/authorize.ts:29-45 | the decoder reads back exactly the scalar value the encoder wrote and consumes exactly its bytes |
| Utf8.DecodeEncode | pages/api/authorize.ts:29-45 | UTF-8 decoding the UTF-8 encoding of any string gives the string back |
| Utf8.EncodeDecode | pages/api/authorize.ts:29-45 | decoding succeeds only on the encoding of its result: no overlong or other alternative spelling is accepted |
| UrlEncoding.FormSetComplement | pages/api/authorize.ts:29-45 | the form-urlencoded percent-encode set, built up from the C0-control, query, path, userinfo and component sets, leaves exactly the ASCII alphanumerics and `*-._` unencoded |
| UrlEncoding.FormEncodeAlphabet | pages/api/authorize.ts:29-45 | form percent-encoding of any bytes writes only ASCII alphanumerics, `*-._`, `+` and `%` |
| UrlEncoding.FormEncode | pages/api/authorize.ts:29-45 | an encoded name or value contains only ASCII alphanumerics, `*-._`, `+` and `%`, so never a `&` or `=` |
| UrlEncoding.SerializeBytesAlphabet | pages/api/authorize.ts:29-45 | the serializer's whole output is ASCII alphanumerics, `*-._+%`, `=` and `&` |
| UrlEncoding.DecodeFormEncodeBytes | pages/api/authorize.ts:29-45 | `+`-to-space followed by percent-decoding undoes the form percent-encoding of any byte sequence |
| UrlEncoding.FormDecodeEncode | pages/api/authorize.ts:29-45 | a name or value with any characters (space, `&`, `=`, `+`, `%`, non-ASCII) decodes back to itself |
| UrlEncoding.ParseSerialize | pages/api/authorize.ts:29-45 | parsing the serializer's output gives back exactly the serialized list: same names, same values, same order |
| UrlEncoding.SerializeInjective | pages/api/authorize.ts:29-45 | two different pair lists never serialize to the same query string |
| UrlEncoding.Serialize | pages/api/authorize.ts:45 | the query string is empty exactly when there are no pairs, and holds only ASCII characters outside the special-query percent-encode set, so the `search` setter has nothing left to encode |
| UrlEncoding.WithSearch | pages/api/authorize.ts:45-48 | an empty value leaves the URL as it was; any other value is stored after the URL followed by `?` |
| UrlEncoding.SearchKeepsSerialization | pages/api/authorize.ts:45 | assigning the serializer's output to `search` stores it unchanged after a `?`: nothing is stripped or re-encoded |
| Authorize.AuthorizeParams | pages/api/authorize.ts:29-42 | six pairs, or seven exactly when `state` is a non-empty string; the caller's client id and `redirect_uri` go in second and third place, a `state` last; no name appears twice |
| Authorize.Handle | pages/api/authorize.ts:7-48 | an unset or empty client id gives 500 with the missing-variable message whatever the query holds; otherwise an absent, empty or repeated `redirect_uri` gives 400; otherwise a 307 redirect |
| Authorize.RedirectQueryDecodes | pages/api/authorize.ts:26-48 | a redirect goes to `https://auth.atlassian.com/authorize?` and its query decodes to response_type, client_id, redirect_uri, scope, audience and prompt in that order, then `state` exactly when it is a non-empty single string |
| Authorize.RedirectDeterminesInputs | pages/api/authorize.ts:26-48 | equal redirect locations come from equal client ids, equal `redirect_uri` values and equal effective `state` |
| TokenExchange.Handle | pages/api/token.ts:22-86 | no upstream call unless method, body, caller fields and secret all pass; the first call carries the grant built from them; the second is made exactly when the token response is accepted and its `access_token` converts to a string, and carries that `access_token` as bearer; a null body escapes uncaught; every reply is 200, 405 or 500; 200 exactly when both responses are accepted |
| TokenExchange.Grant | pages/api/token.ts:46-52 | no name appears twice in the grant body; the caller's `client_id`, `code` and `redirect_uri` are copied under their own names, `client_secret` is the configured string and `grant_type` is `authorization_code` |
| TokenExchange.GrantNames | pages/api/token.ts:46-52 | the grant body has exactly the names `grant_type`, `client_id`, `client_secret`, `code` and `redirect_uri` |
| TokenExchange.ResolveCloudId | pages/api/token.ts:61-82 | after an accepted token step, the reply is 200 exactly when the resources response is ok and its first entry has a truthy id; every other reply is a 500 error body |
| Js.Truthy | pages/api/token.ts:35 | `null` and `undefined` are falsy; arrays and objects are truthy whatever they hold |
| Js.Get | pages/api/token.ts:57 | a missing property reads as `undefined`; the `length` of an array or string is a number that is truthy exactly when it is non-empty; booleans and numbers have no properties |
| Js.First | pages/api/token.ts:71 | `[0]` of a non-empty array is its first item; of an empty array or string, `undefined` |
| Js.Or | pages/api/token.ts:80 | the logical or of `a` and `b` is `a` when `a` is truthy and `b` otherwise |
| TokenExchange.NonPostRejected | pages/api/token.ts:28-30 | any method but POST gives 405 "Method not allowed" with no upstream call |
| TokenExchange.MissingFieldsRejected | pages/api/token.ts:32-37 | a falsy `code`, `redirect_uri` or `client_id`, or an unset or empty secret, gives 500 "Failed to exchange token" with no upstream call |
| TokenExchange.SecretOnlyFromConfiguration | pages/api/token.ts:32-52 | a `client_secret` field in the request body changes neither the calls nor the reply: the grant's secret comes only from configuration |
| TokenExchange.ReplyIndependentOfSecret | pages/api/token.ts:33-85 | the configured secret's value never reaches the reply |
| TokenExchange.TokenRejected | pages/api/token.ts:55-59 | a token response whose body parses as JSON and that is not ok, or whose `access_token` or `expires_in` is falsy (including `expires_in: 0`), gives 500 "Failed to exchange token" and no resources call |
| TokenExchange.CloudIdRejected | pages/api/token.ts:69-73 | after an accepted token response whose `access_token` converts to a string, a resources response whose body parses as JSON and that is not ok, empty, or whose first id is falsy gives 500 "Failed to get cloud ID", with both calls made |
| TokenExchange.ExceptionsCaught | pages/api/token.ts:39-85 | a thrown call, a body that is not JSON, a property read on a null token body, an `access_token` whose string conversion throws while the header is built, or a null resources body or a null first resource gives 500 "Failed to complete authentication" |
| TokenExchange.SuccessRecord | pages/api/token.ts:75-82 | a 200 follows two ok responses and carries the token's `access_token` and `expires_in`, type "Bearer", `refresh_token` or "" when falsy (never null), and the first resource's id |
| TokenExchange.ExampleExchange | pages/api/token.ts:39-82 | for any configured secret, a provider answer `{access_token: "T", refresh_token: "R", expires_in: 3600}` and resources `[{id: "C"}]` give 200 with exactly those values, after the grant request carrying that secret and a resources request with bearer "T" |

## Left out

- The request-forwarding proxy (`pages/api/jira/[...path].ts`) is not part of this model.
- The `fetch` calls and `Response.json()` are inputs (`FetchOutcome`), not I/O. Timeouts and cancellation are not modelled.
- Environment variables are parameters (`Option<string>`).
- The Next.js request and response objects are represented only by the handler's return value:
  - `res.redirect(url)` becomes `Redirect(307, url)`, using Next.js's default status.
  - `res.status(s).json(b)` becomes a JSON reply.
  - The `Content-Type: application/json` header set at `pages/api/token.ts:26` is not represented.
  - The framework's response to an uncaught error is `Uncaught`.
- WHATWG URL parsing of the fixed base URL is not modelled. `Authorize.AuthorizeEndpoint` is its serialization, which has no query and no fragment.
- UrlEncoding.FormDecode: fails on ill-formed UTF-8. The standard's parser substitutes U+FFFD instead. This affects only inputs that the serializer never produces.
- `Js` covers only what the handler reads:
  - Inherited prototype properties are absent.
  - A string's `[0]` is its first code point rather than its first UTF-16 code unit.
  - `NaN` is not represented, since JSON cannot produce it.
- TokenExchange.Handle: whether the second `fetch` rejects the `Authorization` header value is part of the resources outcome (`resourcesStep`). It is not derived from `access_token`, although a value holding CR, LF or NUL, or a code unit above U+00FF, always makes `fetch` reject it, so that the source answers "Failed to complete authentication".
- `TokenExchange.ResourcesRequest` records the value interpolated after `Bearer `, not the header text. Whether that conversion throws is modelled (`Js.Stringifiable`); the text it produces for a non-string `access_token` is not.
- Determinism of the redirect builder holds by construction: `Authorize.Handle` is a function of its three inputs. The lemma proved about it is the stronger injectivity result, `Authorize.RedirectDeterminesInputs`.
