/** Which pool-changing routes are behind `require_api_key`. Flask registers the function
    that `@app.route` is applied to. With `@require_api_key` listed below the route
    decorator, the registered function is the wrapper; listed above it, the bare view is
    registered and the wrapper built afterwards is never called. The import and the
    session-reset routes are written the second way. */
module Routes {
  import opened Common
  import opened Auth
  import opened PoolModel

  /** The HTTP status a route answers and the pool afterwards. */
  datatype Reply = Reply(status: nat, pool: Pool)

  /** The function Flask calls for a request: the view itself, or, when `wrapped`, the
      view behind the decision of `require_api_key`, whose refusal leaves the pool alone. */
  function Registered(wrapped: bool, d: Decision, p: Pool, view: Reply): Reply
  {
    if wrapped && d.Reject? then Reply(d.status, p) else view
  }

  /** The body of `import_config`. `accounts` is `data.get("accounts", [])`, or `None`
      when the body is not a JSON object, so that `data.get` raises and the handler
      answers 400, leaving the accounts and states unchanged (the config dictionary it
      has already replaced is not modelled). */
  function ImportView(p: Pool, accounts: Option<seq<Account>>): (r: Reply)
    ensures accounts.None? ==> r == Reply(400, p)
    ensures accounts.Some? ==> r.status == 200 && r.pool.accounts == accounts.value && Valid(r.pool)
  {
    match accounts
    case None => Reply(400, p)
    case Some(a) => Reply(200, ImportConfig(p, a))
  }

  /** The body of `reset_sessions`. */
  function ResetView(p: Pool): Reply
  {
    Reply(200, ResetAllSessions(p))
  }

  /** `/api/config/import` as registered. */
  function ImportConfigRoute(requireAuth: bool, apiKey: string, authorization: string,
                             p: Pool, accounts: Option<seq<Account>>): Reply
  {
    Registered(false, Authorize(requireAuth, apiKey, authorization), p, ImportView(p, accounts))
  }

  /** `/v1/sessions/reset` as registered. */
  function ResetSessionsRoute(requireAuth: bool, apiKey: string, authorization: string, p: Pool): Reply
  {
    Registered(false, Authorize(requireAuth, apiKey, authorization), p, ResetView(p))
  }

  /** `/api/config/import` with the decorators in the order the other admin routes use. */
  function GuardedImportConfigRoute(requireAuth: bool, apiKey: string, authorization: string,
                                    p: Pool, accounts: Option<seq<Account>>): Reply
  {
    Registered(true, Authorize(requireAuth, apiKey, authorization), p, ImportView(p, accounts))
  }

  /** `/v1/sessions/reset` with the decorators in the order the other routes use. */
  function GuardedResetSessionsRoute(requireAuth: bool, apiKey: string, authorization: string, p: Pool): Reply
  {
    Registered(true, Authorize(requireAuth, apiKey, authorization), p, ResetView(p))
  }

  /** As registered, a caller that `require_api_key` turns away (authentication on, a key
      configured, and a header that does not carry it) still replaces every account. */
  lemma ImportConfigUnauthenticated(apiKey: string, authorization: string, p: Pool, accounts: seq<Account>)
    requires apiKey != [] && ProvidedKey(authorization) != apiKey
    ensures Authorize(true, apiKey, authorization).Reject?
    ensures ImportConfigRoute(true, apiKey, authorization, p, Some(accounts)) == Reply(200, ImportConfig(p, accounts))
  {
  }

  /** As registered, such a caller also drops every cached chat session. */
  lemma ResetSessionsUnauthenticated(apiKey: string, authorization: string, p: Pool)
    requires apiKey != [] && ProvidedKey(authorization) != apiKey
    ensures Authorize(true, apiKey, authorization).Reject?
    ensures ResetSessionsRoute(true, apiKey, authorization, p) == Reply(200, ResetAllSessions(p))
  {
  }

  /** With the wrapper registered, a refused request answers 401 or 503 and changes
      nothing, and an admitted one does what the view does. */
  lemma GuardedImportConfig(requireAuth: bool, apiKey: string, authorization: string,
                            p: Pool, accounts: Option<seq<Account>>)
    ensures var d := Authorize(requireAuth, apiKey, authorization);
      var r := GuardedImportConfigRoute(requireAuth, apiKey, authorization, p, accounts);
      && (d.Reject? ==> r.pool == p && r.status in {401, 503})
      && (d.Proceed? ==> r == ImportView(p, accounts))
      && (requireAuth && apiKey != [] && ProvidedKey(authorization) != apiKey ==> r == Reply(401, p))
  {
  }

  lemma GuardedResetSessions(requireAuth: bool, apiKey: string, authorization: string, p: Pool)
    ensures var d := Authorize(requireAuth, apiKey, authorization);
      var r := GuardedResetSessionsRoute(requireAuth, apiKey, authorization, p);
      && (d.Reject? ==> r.pool == p && r.status in {401, 503})
      && (d.Proceed? ==> r == ResetView(p))
      && (requireAuth && apiKey != [] && ProvidedKey(authorization) != apiKey ==> r == Reply(401, p))
  {
  }
}
