/** `get_jwt_for_account`: the credential exchange that turns an account's cookies into
    a signed token. The HTTP request and the JSON parser are parameters; what is
    modelled is what the function does with the answer. */
module Exchange {
  import opened Common
  import opened Base64Url
  import opened Jwt
  import PoolModel

  /** The anti-XSSI prefix Google puts before JSON bodies. */
  const XssiPrefix := ")]}'"
  const MissingCredentialsMessage := "缺少 secure_c_ses 或 csesidx"

  /** The key grant the exchange answers with. */
  datatype KeyGrant = KeyGrant(keyId: string, xsrfToken: string)

  /** Drops the `)]}'` prefix and the whitespace around what follows it. A body with
      no prefix is left as it is. */
  function StripXssiPrefix(text: string): (r: string)
    ensures |r| <= |text|
    ensures StartsWith(text, XssiPrefix) ==>
      r == [] || (!IsWhitespace(r[0]) && !IsWhitespace(r[|r| - 1]))
    ensures !StartsWith(text, XssiPrefix) ==> r == text
  {
    if StartsWith(text, XssiPrefix) then
      StripBounds(text[4..]);
      Strip(text[4..])
    else text
  }

  /** The prefix and the newline that follows it are removed, and the JSON text is
      handed to the parser as the server wrote it. */
  lemma StripXssiPrefixOfFramed(body: string)
    requires body == [] || (!IsWhitespace(body[0]) && !IsWhitespace(body[|body| - 1]))
    ensures StripXssiPrefix(XssiPrefix + "\n" + body) == body
  {
    var framed := XssiPrefix + "\n" + body;
    var rest := "\n" + body;
    assert framed[..4] == XssiPrefix && framed[4..] == rest;
    assert rest[1..] == body;
    assert IsWhitespace(rest[0]);
    assert LStrip(rest) == LStrip(body);
    LStripUnchanged(body);
    RStripUnchanged(body);
  }

  /** The check on the parsed answer. `shown` is the text the source writes for the
      whole answer (Python's rendering of the dictionary). */
  function ReadKeyResponse(csesidx: string, data: map<string, string>, shown: string): (r: Result<KeyGrant>)
    ensures r.Ok? <==> "keyId" in data && "xsrfToken" in data
    ensures r.Ok? ==> r.value == KeyGrant(data["keyId"], data["xsrfToken"])
    ensures r.Err? ==> StartsWith(r.msg, "账号 " + csesidx + " 认证失败，响应: " + shown)
    ensures r.Err? && "message" in data ==> EndsWith(r.msg, " - " + data["message"])
    ensures r.Err? && "message" !in data ==> EndsWith(r.msg, shown)
  {
    if "keyId" !in data || "xsrfToken" !in data then
      var head := "账号 " + csesidx + " 认证失败，响应: " + shown;
      Err(head + if "message" in data then " - " + data["message"] else "")
    else Ok(KeyGrant(data["keyId"], data["xsrfToken"]))
  }

  /** The whole exchange for one account, for a given issuer and audience. `fetch` is
      the body of the answer to the request or the error the request raised, `parse` is
      `json.loads`, `render` is how Python shows a dictionary, `now` is
      `int(time.time())` and `mac` is HMAC-SHA256. */
  function TokenExchange(issuer: string, audience: string, account: PoolModel.Account,
                         fetch: Result<string>, parse: string -> Result<map<string, string>>,
                         render: map<string, string> -> string, now: nat,
                         mac: (seq<byte>, seq<byte>) -> seq<byte>): (r: Result<string>)
    ensures account.secureCSes == [] || account.csesidx == [] ==> r == Err(MissingCredentialsMessage)
    ensures r.Ok? ==> fetch.Ok? && parse(StripXssiPrefix(fetch.value)).Ok?
    ensures r.Ok? ==>
      var data := parse(StripXssiPrefix(fetch.value)).value;
      && "keyId" in data && "xsrfToken" in data
      && DecodeXsrfToken(data["xsrfToken"]).Ok?
      && r.value == TokenFor(issuer, audience, DecodeXsrfToken(data["xsrfToken"]).value, data["keyId"],
                             account.csesidx, now, mac)
  {
    if account.secureCSes == [] || account.csesidx == [] then Err(MissingCredentialsMessage)
    else match fetch
      case Err(e) => Err(e)
      case Ok(text) =>
        match parse(StripXssiPrefix(text))
        case Err(e) => Err(e)
        case Ok(data) =>
          match ReadKeyResponse(account.csesidx, data, render(data))
          case Err(e) => Err(e)
          case Ok(grant) =>
            match DecodeXsrfToken(grant.xsrfToken)
            case Err(e) => Err(e)
            case Ok(keyBytes) => Ok(TokenFor(issuer, audience, keyBytes, grant.keyId, account.csesidx, now, mac))
  }

  /** `get_jwt_for_account`: the exchange with the two fixed URLs of `create_jwt`. */
  function GetJwtForAccount(account: PoolModel.Account, fetch: Result<string>,
                            parse: string -> Result<map<string, string>>,
                            render: map<string, string> -> string, now: nat,
                            mac: (seq<byte>, seq<byte>) -> seq<byte>): Result<string>
  {
    TokenExchange(Issuer, Audience, account, fetch, parse, render, now, mac)
  }

  /** A server that answers `)]}'`, a newline and a JSON object whose `xsrfToken` is the
      unpadded base64url form of a key gets back a token signed with exactly that key:
      its third segment decodes to the MAC of the first two under the key. */
  lemma ExchangeSignsWithGrantedKey(issuer: string, audience: string, account: PoolModel.Account,
                                    body: string, key: seq<byte>, keyId: string,
                                    parse: string -> Result<map<string, string>>,
                                    render: map<string, string> -> string, now: nat,
                                    mac: (seq<byte>, seq<byte>) -> seq<byte>)
    requires account.secureCSes != [] && account.csesidx != []
    requires body == [] || (!IsWhitespace(body[0]) && !IsWhitespace(body[|body| - 1]))
    requires parse(body).Ok?
    requires parse(body).value.Keys >= {"keyId", "xsrfToken"}
    requires parse(body).value["keyId"] == keyId
    requires parse(body).value["xsrfToken"] == UrlSafeB64Encode(key)
    ensures var r := TokenExchange(issuer, audience, account, Ok(XssiPrefix + "\n" + body), parse, render, now, mac);
      && r == Ok(TokenFor(issuer, audience, key, keyId, account.csesidx, now, mac))
      && var parts := Split(r.value, '.');
      && |parts| == 3
      && parts[0] == Segment(HeaderText(keyId))
      && parts[1] == Segment(ClaimsText(issuer, audience, account.csesidx, now))
      && DecodeXsrfToken(parts[2]) == Ok(mac(key, SigningInput(parts[0], parts[1])))
  {
    StripXssiPrefixOfFramed(body);
    DecodeXsrfTokenOfEncode(key);
    CreateJwtStructure(issuer, audience, key, keyId, account.csesidx, now, mac);
  }

  /** A token `ensure_jwt_for_account` installed at time `t` (and whose `exp` claim is
      therefore `t + Lifetime`) is handed out again from the cache for the next 240
      seconds, and only while it has at least a minute left before it expires. */
  lemma CachedTokenLifetime(p: PoolModel.Pool, idx: nat, t: nat, later: nat, token: string,
                            exchange: Result<string>)
    requires idx in p.states && PoolModel.NeedsRefresh(p.states[idx], t)
    requires token != [] && t <= later
    ensures var q := PoolModel.EnsureJwt(p, idx, t, Ok(token)).1;
      var (r, q2) := PoolModel.EnsureJwt(q, idx, later, exchange);
      && (later <= t + PoolModel.JwtMaxAge ==> r == Ok(token) && q2 == q)
      && (!PoolModel.NeedsRefresh(q.states[idx], later) ==> r == Ok(token) && later + 60 <= t + Lifetime)
  {
    var q := PoolModel.EnsureJwt(p, idx, t, Ok(token)).1;
    assert q.states[idx].jwt == Some(token) && q.states[idx].jwtTime == t;
  }
}
