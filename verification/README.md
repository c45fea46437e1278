# A verified model of the `Meli` client's URL building and token state

`class Meli` (lib/meli.rb) is a small OAuth2 / REST client for the
MercadoLibre API. Most of it is HTTPS plumbing. Two pieces of it are pure
logic, and this project models and proves them:

1. **Request-URL construction.** `make_path` puts a `/` in front of a path
   the regex `/^\//` does not match. It prepends the API root, and appends
   `?` plus `to_url_params(params)` only when the parameter hash is
   non-empty. `to_url_params` writes each entry as `key=value`, joins the
   pieces with `&`, and escapes the joined string once. `auth_url` builds
   the authorization URL from the three parameters `client_id`,
   `response_type=code` and `redirect_uri`, in that order.
2. **Token state.** `auth` merges `grant_type`, `client_id` and
   `client_secret` over the caller's parameters. On a 2xx reply it always
   overwrites the access token. It overwrites the refresh token only when
   the reply has a `refresh_token` key, and it returns a result hash. On
   any other reply it changes nothing and raises. `get_refresh_token`
   raises before sending anything when the refresh token is `nil` or
   empty.

How the model is built:

- Modules follow the pieces above. `RubyHash` (ruby_hash.dfy) holds `nil`-or-string
  values, string interpolation, and insertion-ordered hashes with `[]`,
  `[]=` and `merge!`. `QueryString` (query_string.dfy) is `to_url_params`.
  `RequestPath` (request_path.dfy) is `make_path`. `Meli` (meli.dfy) is the
  client. `Text` (text.dfy) holds join/split helpers.
- The client is an immutable `Client` record. A token operation returns an
  `Exchange`: the client afterwards, the token request sent (or none), and
  the result or the error raised.
- The four YAML constants are a `Config` parameter. `URI.escape` is the
  uninterpreted parameter `escape: string -> string`. The HTTPS round trip
  is the parameter `transport`, which maps the request to the parsed reply.
- Ruby hashes are sequences of `(key, value)` pairs, because Ruby hashes
  keep insertion order. `merge!` updates an existing key in place and
  appends a new key at the end, as Ruby does.

Four behaviours of the code are easy to misread; the model follows the code as written:

- **`expires_in`.** The result's `expires_in` is filled from the reply's
  `refresh_token` field (lib/meli.rb:71). This is almost certainly a
  copy-paste slip. It is modelled as written: `Meli.Settle` states it, and
  `Meli.ExpiresInIsRefreshToken` shows a reply whose `expires_in` is lost.
- **The leading-slash test.** `path =~ /^\//` uses Ruby's `^`, which
  anchors at the start of every line. So a path whose later line starts
  with `/` gets no slash (`RequestPath.SlashOnLaterLine`). For a one-line
  path the test is exactly "starts with `/`"
  (`RequestPath.SingleLineLeadingSlash`).
- **The token request URL.** `auth` calls `make_path(OAUTH_URL, params)`.
  That prepends the API root to the OAuth URL and puts the merged
  parameters, `client_secret` included, into the query string. Only the
  path part of it is then used for the POST. `Meli.Auth` records the URL
  as built, and the merged hash as the form.
- **The `?` in front of the query.** `make_path` appends `?` only for a
  non-empty hash, so `make_path("items", {})` has no `?`
  (`RequestPath.ItemsUrls`). It appends it even when the path already
  carries a query, giving a second `?` (`RequestPath.SecondQuestionMark`).
  The verb methods then build the request target as
  `"#{uri.path}?#{uri.query}"`, which always ends the path with `?`. That
  step depends on `URI.parse` and is not modelled.

## Model

| member | source | states |
|---|---|---|
| RubyHash.Merge | lib/meli.rb:40-44 | `merge!` gives every key of the merged-in hash its new value and keeps every other key's value. The key set is the union. Unique keys stay unique, and existing keys keep their positions. Entries whose key is not merged in are unchanged. The keys `h` lacked follow, in the merged-in hash's order. |
| RubyHash.MergeOrderExample | lib/meli.rb:40-44 | For distinct keys `a`, `b`, `c`, `{a: nil}.merge!(b: nil, a: v, c: nil)` is `{a: v, b: nil, c: nil}`. |
| RubyHash.MergeFresh | lib/meli.rb:40-44 | Merging a hash with no key in common appends its entries, in order. |
| QueryString.ToUrlParams | lib/meli.rb:136-138 | The query is `escape` applied once to the `k=v` pieces joined with `&`, in hash order: `escape("")` for an empty hash, otherwise the first piece, then `&` and the rest's joined text. Its properties are `QueryString.DecodeUnescaped` (round trip) and `QueryString.EscapeSeesOnlyJoined` (escaping the whole string). |
| QueryString.DecodeUnescaped | lib/meli.rb:136-138 | The joined `k=v&...` string of a non-empty hash decodes back to every entry, in order, when keys contain no `&` or `=` and values no `&`. |
| QueryString.EscapeSeesOnlyJoined | lib/meli.rb:137 | Escaping is applied once, to the joined string: two hashes with the same joined text give the same query for every `escape`. |
| QueryString.AmpersandInValueCollides | lib/meli.rb:137 | Because of that, `{a: "b&c=d"}` and `{a: "b", c: "d"}` produce the same query. |
| RequestPath.WithLeadingSlash | lib/meli.rb:142 | The result is the path or `/` + path. It always satisfies the regex. A path that starts with `/` is kept unchanged, and for a one-line path the result starts with `/`. |
| RequestPath.SingleLineAnchor | lib/meli.rb:142 | For a path without a newline, `/^\//` matches exactly when the path starts with `/`. |
| RequestPath.SingleLineLeadingSlash | lib/meli.rb:142 | A one-line path gets a `/` exactly when it does not start with one, and is otherwise kept unchanged. |
| RequestPath.LeadingSlashIdempotent | lib/meli.rb:142 | Adding the leading slash twice gives the same path as adding it once. |
| RequestPath.SlashOnLaterLine | lib/meli.rb:142 | `"items\n/x"` gets no leading slash, because its second line starts with `/`. |
| RequestPath.MakePath | lib/meli.rb:140-147 | The URL is the API root followed by the slash-prefixed path. For an empty hash nothing follows. For a non-empty hash `?` + `to_url_params(params)` follows, whatever the path holds. If root and path contain no `?`, the URL contains `?` exactly when the hash is non-empty. |
| RequestPath.MakePathSplits | lib/meli.rb:142-145 | For a root and path without `?`: cut at its first `?`, the URL gives back root + prefixed path, plus a query. The query is present exactly when the hash is non-empty, and is then `to_url_params(params)`. |
| RequestPath.ItemsUrls | lib/meli.rb:140-147 | `("items", {})` gives `root/items` with no `?`. `("/items", {q: "phone"})` gives `root/items?` + escape(`q=phone`). |
| RequestPath.SecondQuestionMark | lib/meli.rb:140-147 | `("items?a=1", {b: "2"})` gives `root/items?a=1?` + escape(`b=2`): the `?` is appended even after an existing query. |
| Meli.AuthUrl | lib/meli.rb:34-37 | The URL is `AUTH_URL ? escape("client_id=" + app_id + "&response_type=code&redirect_uri=" + r)`, with `nil` app_id printed as empty. |
| Meli.AuthUrlDependsOnlyOnAppId | lib/meli.rb:34-37 | Two clients with the same `app_id` get the same authorization URL. Secret and tokens play no part. |
| Meli.AuthUrlQueryDecodes | lib/meli.rb:34-37 | When neither `app_id` nor `r` contains `&`, the unescaped query decodes to exactly the pairs client_id, response_type=code and redirect_uri, in that order. |
| Meli.GrantFieldsShape | lib/meli.rb:40-44 | The merged-in grant hash has the three distinct keys `grant_type`, `client_id`, `client_secret`, holding the grant type, app id and secret. |
| Meli.TokenParams | lib/meli.rb:40-44 | After the merge: `grant_type`, `client_id = app_id` and `client_secret = secret` override same-named caller keys. Every other caller key keeps its value and position. The key set is the caller's plus the three. |
| Meli.Settle | lib/meli.rb:55-78 | On 2xx the access token becomes the reply's `access_token` (nil if absent). The refresh token is replaced only if the reply has the key. Credentials are kept, and the result carries both tokens, `expires_in` = the reply's `refresh_token`, the date and `id`. Otherwise the client is unchanged and the error carries the status. |
| Meli.NewKeysGoFirst | lib/meli.rb:40-44 | When no caller key is a grant key, the merged form is the caller's hash followed by `grant_type`, `client_id`, `client_secret`, in that order. |
| Meli.Auth | lib/meli.rb:39-78 | The exchange always sends one request. Its form is the merged hash, and its URL is `make_path(OAUTH_URL, form)`. The client is settled against the reply to exactly that request. |
| Meli.Authorize | lib/meli.rb:81-83 | The form is `code`, `redirect_uri`, then `grant_type = authorization_code`, `client_id`, `client_secret`, in that order. It is posted to `make_path(OAUTH_URL, form)`, and the client is settled against the reply. |
| Meli.GetRefreshToken | lib/meli.rb:85-91 | Nothing is sent exactly when the refresh token is `nil` or `""`. The client is then unchanged and the offline-access error is raised. Otherwise the form is `refresh_token` (the stored one), `grant_type = refresh_token`, `client_id`, `client_secret`. It is posted to `make_path(OAUTH_URL, form)`, and the client is settled against the reply. |
| Meli.RefreshForm | lib/meli.rb:85-91 | The form `get_refresh_token` posts is `refresh_token` (the stored one), then `grant_type = refresh_token`, `client_id`, `client_secret`. |
| Meli.ExpiresInIsRefreshToken | lib/meli.rb:68-74 | For a reply with `refresh_token` R1 and `expires_in` 21600, the result's `expires_in` is R1, not the reply's `expires_in`. |
| Meli.TokensAfterResponses | lib/meli.rb:55-78 | After any run of exchanges, the access token is the `access_token` of the last 2xx reply. The refresh token is that of the last 2xx reply carrying the key, or the initial one if there is none. The credentials never change. |

## Left out

- The constructor's `Net::HTTP` transport and TLS settings (lib/meli.rb:26-30), the POST itself and its headers (lib/meli.rb:48-53), and `execute` (lib/meli.rb:94-99) are I/O. The `Client` record stands for the four fields the constructor sets.
- YAML loading of the four constants (lib/meli.rb:14-18) is file I/O. They are the `Config` parameter; `sdkVersion` only feeds a header.
- `JSON.parse` and the key symbolisation (lib/meli.rb:57-60) are library work. The reply arrives as a parsed map from key to string or `null`.
- JSON values that are not strings or `null`, such as a numeric `expires_in`, are modelled as strings.
- `URI.escape` and `URI.parse` are foreign library calls. Escaping is the abstract parameter `escape`, and the URL is modelled before `URI.parse`.
- `get`, `post`, `put`, `delete` and `options` (lib/meli.rb:101-133) are left out beyond `make_path`. Their request target depends on `URI.parse`. Their body handling (`set_form_data`, `to_json`) is library behaviour. The rest is dispatch.
- `response.error!` is modelled only as failing with the status code. The exception class and the body it carries are not modelled.
- `merge!` mutates the caller's hash in place. The model returns the merged hash instead of changing the caller's value.
- Meli.TokenParams: hash keys are modelled by their names. In Ruby a caller key given as a string (`"client_id"`) is distinct from the symbol `:client_id` and would not be overridden. The model treats both as the same key.
- Meli.AuthUrl: `redirect_URI` is modelled as a string. In Ruby a `nil` argument would print as empty. The same holds for the `code` and `redirect_URI` arguments of Meli.Authorize.
- The `attr_accessor` setters for the two tokens need no model: any `Client` value can be built with Dafny's record update.
