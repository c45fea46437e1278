/** The pure logic of `class Meli` (lib/meli.rb): the authorization URL,
    the parameters of a token exchange, the token-state update on the
    exchange's response, and the guard in front of a refresh.

    The client is an immutable record; an operation that changes tokens
    returns the new record. The YAML constants arrive as a `Config`,
    `URI.escape` as `escape`, and the HTTPS round trip as `transport`,
    which maps the request the client would send to the response it gets. */
module Meli {
  import opened RubyHash
  import QueryString
  import RequestPath
  import Text

  /** The constants read from `config.yml`. `sdkVersion` only feeds the
      `User-Agent` header, which this model leaves out. */
  datatype Config = Config(sdkVersion: string, apiRootUrl: string, authUrl: string, oauthUrl: string)

  /** A `Meli` object: application credentials and the current token pair. */
  datatype Client = Client(appId: Value, secret: Value, accessToken: Value, refreshToken: Value)

  /** A token-endpoint reply: its status code, its `Date` header, and its
      JSON body already parsed, each key mapped to a string or `null`. */
  datatype Response = Response(status: int, date: Value, body: map<string, Value>)

  /** `Net::HTTPSuccess`: the 2xx status class. */
  predicate IsSuccess(resp: Response)
  {
    200 <= resp.status < 300
  }

  /** `response_info[k]`: `nil` for a key the body does not have. */
  function Field(body: map<string, Value>, k: string): Value
  {
    if k in body then body[k] else None
  }

  /** The hash `auth` returns on success. */
  datatype TokenResult = TokenResult(accessToken: Value, refreshToken: Value, expiresIn: Value, date: Value, id: Value)

  /** What the client raises: `response.error!` on a non-2xx reply, and the
      refusal to refresh without a refresh token. */
  datatype Error = HttpError(status: int) | OfflineAccessNotAllowed

  datatype Result<+T> = Ok(value: T) | Err(error: Error)

  /** The token-endpoint POST: the URL `make_path` builds for it and the form it carries. */
  datatype TokenRequest = TokenRequest(url: string, form: Hash)

  /** One call of a token operation: the client afterwards, the request sent
      (if the operation got that far), and the value returned or raised. */
  datatype Exchange = Exchange(client: Client, sent: Option<TokenRequest>, result: Result<TokenResult>)

  // ---------------------------------------------------------------------
  // auth_url

  /** The hash literal of `auth_url`, in its written order. */
  function AuthUrlParams(c: Client, redirect: string): Hash
  {
    [("client_id", c.appId), ("response_type", Some("code")), ("redirect_uri", Some(redirect))]
  }

  /** The three pieces of the `auth_url` query, before joining. */
  lemma AuthUrlPieces(c: Client, redirect: string)
    ensures QueryString.Collect(AuthUrlParams(c, redirect))
         == ["client_id=" + Interpolate(c.appId), "response_type=code", "redirect_uri=" + redirect]
  {
    var params := AuthUrlParams(c, redirect);
    QueryString.CollectThree(params[0], params[1], params[2]);
    assert QueryString.PairText(params[0]) == "client_id=" + Interpolate(c.appId);
    assert QueryString.PairText(params[1]) == "response_type=code";
    assert QueryString.PairText(params[2]) == "redirect_uri=" + redirect;
  }

  /** The unescaped query of `auth_url`, written out. */
  lemma AuthUrlQueryText(c: Client, redirect: string)
    ensures QueryString.Unescaped(AuthUrlParams(c, redirect))
         == "client_id=" + Interpolate(c.appId) + "&response_type=code&redirect_uri=" + redirect
  {
    var app := Interpolate(c.appId);
    AuthUrlPieces(c, redirect);
    Text.Join3("client_id=" + app, "response_type=code", "redirect_uri=" + redirect, '&');
    JoinedAuthQuery(app, redirect);
  }

  lemma JoinedAuthQuery(app: string, redirect: string)
    ensures ("client_id=" + app) + "&" + "response_type=code" + "&" + ("redirect_uri=" + redirect)
         == "client_id=" + app + "&response_type=code&redirect_uri=" + redirect
  {
    assert "&" + "response_type=code" + "&" + "redirect_uri=" == "&response_type=code&redirect_uri=";
  }

  /** `auth_url(redirect_URI)`: the three parameters always in the order
      `client_id`, `response_type`, `redirect_uri`, escaped once as a whole. */
  function AuthUrl(cfg: Config, c: Client, redirect: string, escape: string -> string): (url: string)
    ensures url == cfg.authUrl + "?"
                   + escape("client_id=" + Interpolate(c.appId) + "&response_type=code&redirect_uri=" + redirect)
  {
    AuthUrlQueryText(c, redirect);
    cfg.authUrl + "?" + QueryString.ToUrlParams(escape, AuthUrlParams(c, redirect))
  }

  /** The authorization URL depends on the client only through its `app_id`:
      tokens and secret play no part. */
  lemma AuthUrlDependsOnlyOnAppId(cfg: Config, c: Client, d: Client, redirect: string, escape: string -> string)
    requires c.appId == d.appId
    ensures AuthUrl(cfg, c, redirect, escape) == AuthUrl(cfg, d, redirect, escape)
  {
  }

  /** Before escaping, the query reads back as exactly the three parameters
      when neither `app_id` nor the redirect URI contains `&`. */
  lemma AuthUrlQueryDecodes(c: Client, redirect: string)
    requires '&' !in Interpolate(c.appId) && '&' !in redirect
    ensures QueryString.Decode(QueryString.Unescaped(AuthUrlParams(c, redirect)))
         == [("client_id", Interpolate(c.appId)), ("response_type", "code"), ("redirect_uri", redirect)]
  {
    QueryString.DecodeUnescaped(AuthUrlParams(c, redirect));
  }

  // ---------------------------------------------------------------------
  // auth: the parameter merge

  const GrantKeys: set<string> := {"grant_type", "client_id", "client_secret"}

  /** The hash `auth` merges into the caller's parameters. */
  function GrantFields(c: Client, grantType: string): Hash
  {
    [("grant_type", Some(grantType)), ("client_id", c.appId), ("client_secret", c.secret)]
  }

  /** The grant fields: three distinct keys, each finding its own value. */
  lemma GrantFieldsShape(c: Client, grantType: string)
    ensures Keys(GrantFields(c, grantType)) == GrantKeys
    ensures UniqueKeys(GrantFields(c, grantType))
    ensures Find(GrantFields(c, grantType), "grant_type") == Some(Some(grantType))
    ensures Find(GrantFields(c, grantType), "client_id") == Some(c.appId)
    ensures Find(GrantFields(c, grantType), "client_secret") == Some(c.secret)
  {
    var fields := GrantFields(c, grantType);
    assert fields[1..] == [fields[1], fields[2]] && fields[1..][1..] == [fields[2]] && fields[2..][1..] == [];
    assert Keys(fields[2..]) == {"client_secret"};
    assert Keys(fields[1..]) == {"client_id", "client_secret"};
    assert UniqueKeys(fields[2..]);
    assert UniqueKeys(fields[1..]);
    FindEntry(fields, 0);
    FindEntry(fields, 1);
    FindEntry(fields, 2);
  }

  /** `params.merge!(grant_type:, client_id:, client_secret:)`: the three
      grant fields override same-named caller keys, every other caller key
      keeps its value, and caller keys keep their positions. */
  function TokenParams(c: Client, grantType: string, params: Hash): (form: Hash)
    requires UniqueKeys(params)
    ensures Find(form, "grant_type") == Some(Some(grantType))
    ensures Find(form, "client_id") == Some(c.appId)
    ensures Find(form, "client_secret") == Some(c.secret)
    ensures forall k :: k !in GrantKeys ==> Find(form, k) == Find(params, k)
    ensures Keys(form) == Keys(params) + GrantKeys
    ensures UniqueKeys(form)
    ensures |params| <= |form| && forall i :: 0 <= i < |params| ==> form[i].0 == params[i].0
  {
    GrantFieldsShape(c, grantType);
    Merge(params, GrantFields(c, grantType))
  }

  // ---------------------------------------------------------------------
  // auth: the token update

  /** What `auth` does with the response. On success the access token is
      always overwritten, the refresh token only when the body has that key,
      and the result hash is returned; `expires_in` is filled from the
      body's `refresh_token`, as the code is written. Otherwise nothing
      changes and `error!` raises. */
  function Settle(c: Client, resp: Response): (s: (Client, Result<TokenResult>))
    ensures !IsSuccess(resp) ==> s.0 == c && s.1 == Err(HttpError(resp.status))
    ensures IsSuccess(resp) ==>
      && s.0.accessToken == Field(resp.body, "access_token")
      && s.0.refreshToken == (if "refresh_token" in resp.body then resp.body["refresh_token"] else c.refreshToken)
      && s.0.appId == c.appId && s.0.secret == c.secret
      && s.1.Ok?
      && s.1.value.accessToken == s.0.accessToken
      && s.1.value.refreshToken == s.0.refreshToken
      && s.1.value.expiresIn == Field(resp.body, "refresh_token")
      && s.1.value.date == resp.date
      && s.1.value.id == Field(resp.body, "id")
  {
    if IsSuccess(resp) then
      var info := resp.body;
      var c' := c.(accessToken := Field(info, "access_token"));
      var c'' := if "refresh_token" in info then c'.(refreshToken := info["refresh_token"]) else c';
      (c'', Ok(TokenResult(c''.accessToken, c''.refreshToken, Field(info, "refresh_token"), resp.date, Field(info, "id"))))
    else
      (c, Err(HttpError(resp.status)))
  }

  /** `auth(grant_type, params)`: merge, send the merged hash as the form of a
      POST to `make_path(OAUTH_URL, params)`, settle on the reply. */
  function Auth(cfg: Config, c: Client, grantType: string, params: Hash,
                escape: string -> string, transport: TokenRequest -> Response): (x: Exchange)
    requires UniqueKeys(params)
    ensures x.sent.Some?
    ensures x.sent.value.form == TokenParams(c, grantType, params)
    ensures x.sent.value.url == RequestPath.MakePath(cfg.apiRootUrl, cfg.oauthUrl, x.sent.value.form, escape)
    ensures (x.client, x.result) == Settle(c, transport(x.sent.value))
  {
    var form := TokenParams(c, grantType, params);
    var req := TokenRequest(RequestPath.MakePath(cfg.apiRootUrl, cfg.oauthUrl, form, escape), form);
    var s := Settle(c, transport(req));
    Exchange(s.0, Some(req), s.1)
  }

  /** Caller keys that are not grant keys come first, the grant fields after them. */
  lemma NewKeysGoFirst(c: Client, grantType: string, params: Hash)
    requires UniqueKeys(params)
    requires Keys(params) !! GrantKeys
    ensures TokenParams(c, grantType, params) == params + GrantFields(c, grantType)
  {
    GrantFieldsShape(c, grantType);
    MergeFresh(params, GrantFields(c, grantType));
  }

  /** `authorize(code, redirect_URI)`: an `authorization_code` exchange whose
      form is the caller's two keys followed by the three grant fields. */
  function Authorize(cfg: Config, c: Client, code: string, redirect: string,
                     escape: string -> string, transport: TokenRequest -> Response): (x: Exchange)
    ensures x.sent.Some?
    ensures x.sent.value.form
         == [("code", Some(code)), ("redirect_uri", Some(redirect)),
             ("grant_type", Some("authorization_code")), ("client_id", c.appId), ("client_secret", c.secret)]
    ensures x.sent.value.url == RequestPath.MakePath(cfg.apiRootUrl, cfg.oauthUrl, x.sent.value.form, escape)
    ensures (x.client, x.result) == Settle(c, transport(x.sent.value))
  {
    var params: Hash := [("code", Some(code)), ("redirect_uri", Some(redirect))];
    assert params[1..] == [params[1]] && params[1..][1..] == [];
    assert Keys(params[1..]) == {"redirect_uri"};
    assert Keys(params) == {"code", "redirect_uri"};
    assert UniqueKeys(params[1..]);
    assert UniqueKeys(params);
    assert Keys(params) !! GrantKeys;
    NewKeysGoFirst(c, "authorization_code", params);
    Auth(cfg, c, "authorization_code", params, escape, transport)
  }

  /** The guard of `get_refresh_token`: a refresh token that is neither `nil` nor empty. */
  predicate MayRefresh(c: Client)
  {
    c.refreshToken.Some? && c.refreshToken.value != ""
  }

  /** `get_refresh_token`: without a usable refresh token it raises before
      sending anything; otherwise a `refresh_token` exchange with the stored
      refresh token as the only caller key. */
  function GetRefreshToken(cfg: Config, c: Client,
                           escape: string -> string, transport: TokenRequest -> Response): (x: Exchange)
    ensures x.sent.None? <==> (c.refreshToken == None || c.refreshToken == Some(""))
    ensures x.sent.None? ==> x.client == c && x.result == Err(OfflineAccessNotAllowed)
    ensures x.sent.Some? ==>
      && x.sent.value.form
         == [("refresh_token", c.refreshToken), ("grant_type", Some("refresh_token")),
             ("client_id", c.appId), ("client_secret", c.secret)]
      && x.sent.value.url == RequestPath.MakePath(cfg.apiRootUrl, cfg.oauthUrl, x.sent.value.form, escape)
      && (x.client, x.result) == Settle(c, transport(x.sent.value))
  {
    if MayRefresh(c) then
      RefreshForm(c);
      Auth(cfg, c, "refresh_token", [("refresh_token", c.refreshToken)], escape, transport)
    else
      Exchange(c, None, Err(OfflineAccessNotAllowed))
  }

  /** The form `get_refresh_token` posts: the stored refresh token, then the
      three grant fields. */
  lemma RefreshForm(c: Client)
    ensures UniqueKeys([("refresh_token", c.refreshToken)])
    ensures TokenParams(c, "refresh_token", [("refresh_token", c.refreshToken)])
         == [("refresh_token", c.refreshToken), ("grant_type", Some("refresh_token")),
             ("client_id", c.appId), ("client_secret", c.secret)]
  {
    var params: Hash := [("refresh_token", c.refreshToken)];
    assert params[1..] == [];
    assert Keys(params) == {"refresh_token"};
    assert Keys(params) !! GrantKeys;
    NewKeysGoFirst(c, "refresh_token", params);
  }

  /** The defect as written: with a body carrying both an `expires_in` and a
      `refresh_token`, the result's `expires_in` is the refresh token. */
  lemma ExpiresInIsRefreshToken(c: Client)
    ensures var resp := Response(200, None, map["access_token" := Some("T1"), "refresh_token" := Some("R1"),
                                                "expires_in" := Some("21600")]);
            && Settle(c, resp).1.value.expiresIn == Some("R1")
            && Settle(c, resp).1.value.expiresIn != Field(resp.body, "expires_in")
  {
  }

  // ---------------------------------------------------------------------
  // The token pair over a run of exchanges

  /** The client after the token endpoint answered `rs`, one exchange per
      response; a failed exchange raises and leaves the client as it was. */
  function AfterResponses(c: Client, rs: seq<Response>): Client
    decreases |rs|
  {
    if |rs| == 0 then c else AfterResponses(Settle(c, rs[0]).0, rs[1..])
  }

  /** Reference definition of the stored refresh token: the `refresh_token` of
      the LAST successful response that has that key, or the initial one. */
  function LatestRefresh(initial: Value, rs: seq<Response>): Value
  {
    if |rs| == 0 then initial
    else
      var last := rs[|rs| - 1];
      if IsSuccess(last) && "refresh_token" in last.body then last.body["refresh_token"]
      else LatestRefresh(initial, rs[..|rs| - 1])
  }

  /** Reference definition of the stored access token: the `access_token` field
      of the last successful response, or the initial one. */
  function LatestAccess(initial: Value, rs: seq<Response>): Value
  {
    if |rs| == 0 then initial
    else
      var last := rs[|rs| - 1];
      if IsSuccess(last) then Field(last.body, "access_token")
      else LatestAccess(initial, rs[..|rs| - 1])
  }

  /** One more exchange at the end of a run. */
  lemma {:induction false} AfterResponsesSnoc(c: Client, rs: seq<Response>, r: Response)
    ensures AfterResponses(c, rs + [r]) == Settle(AfterResponses(c, rs), r).0
    decreases |rs|
  {
    if |rs| == 0 {
      assert [r][1..] == [];
    } else {
      assert (rs + [r])[1..] == rs[1..] + [r];
      AfterResponsesSnoc(Settle(c, rs[0]).0, rs[1..], r);
    }
  }

  /** Over any run of exchanges the access token is the last successful
      response's, the refresh token is overwritten only by a response that
      carries one, and the credentials never change. */
  lemma {:induction false} TokensAfterResponses(c: Client, rs: seq<Response>)
    ensures AfterResponses(c, rs).accessToken == LatestAccess(c.accessToken, rs)
    ensures AfterResponses(c, rs).refreshToken == LatestRefresh(c.refreshToken, rs)
    ensures AfterResponses(c, rs).appId == c.appId && AfterResponses(c, rs).secret == c.secret
    decreases |rs|
  {
    if |rs| > 0 {
      var init := rs[..|rs| - 1];
      assert rs == init + [rs[|rs| - 1]];
      AfterResponsesSnoc(c, init, rs[|rs| - 1]);
      TokensAfterResponses(c, init);
    }
  }
}
