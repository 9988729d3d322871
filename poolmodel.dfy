/** The account pool of gemini.py as values: the account records, the per-index state
    (cached token, its issue time, cached chat session, availability) and the round-robin
    cursor, with every operation that reads or changes them written as a function from the
    old pool to its result and the new pool. `AccountPool.AccountManager` is the mutable
    object; each of its methods is proved to do what the function of the same name here
    says. */
module PoolModel {
  import opened Common

  /** The text of the exception `get_next_account` raises. */
  const NoAccountsMessage := "没有可用的账号"
  /** The error the admin routes answer (with 404) for an index outside the list. */
  const NotFoundMessage := "账号不存在"
  /** The user agent `add_account` stores when the request gives none. */
  const DefaultUserAgent := "Mozilla/5.0"
  /** Seconds a token is reused before `ensure_jwt_for_account` fetches a new one. */
  const JwtMaxAge := 240

  /** One entry of `accounts`. A key the dictionary lacks reads as "" (every reader
      treats a missing and an empty value alike). */
  datatype Account = Account(teamId: string, secureCSes: string, hostCOses: string,
                             csesidx: string, userAgent: string, available: bool,
                             unavailableReason: Option<string>, unavailableTime: Option<nat>)

  /** One entry of `account_states`: `{jwt, jwt_time, session, available}`. */
  datatype AccountState = AccountState(jwt: Option<string>, jwtTime: nat,
                                       session: Option<string>, available: bool)

  datatype Pool = Pool(accounts: seq<Account>, states: map<nat, AccountState>, cursor: nat)

  function FreshState(available: bool): AccountState
  {
    AccountState(None, 0, None, available)
  }

  /** The pool invariant: exactly the indices of `accounts` have a state, and a state's
      availability is the availability recorded on its account. */
  ghost predicate Valid(p: Pool)
  {
    && (forall i: nat :: i in p.states <==> i < |p.accounts|)
    && (forall i: nat :: i < |p.accounts| && i in p.states ==> p.states[i].available == p.accounts[i].available)
  }

  /** Every account has a state: what the per-account operations of the chat route
      read without a default. */
  ghost predicate Keyed(p: Pool)
  {
    forall i: nat :: i < |p.accounts| ==> i in p.states
  }

  // ---------------------------------------------------------------------------
  // get_available_accounts, get_next_account, get_account_count
  // ---------------------------------------------------------------------------

  /** `account_states.get(i, {}).get("available", True)`. */
  predicate StateAvailable(states: map<nat, AccountState>, i: nat)
  {
    i !in states || states[i].available
  }

  /** The available indices below `n`, in increasing order. */
  function AvailableBelow(states: map<nat, AccountState>, n: nat): (r: seq<nat>)
    ensures |r| <= n
  {
    if n == 0 then []
    else AvailableBelow(states, n - 1) + (if StateAvailable(states, n - 1) then [n - 1] else [])
  }

  /** The list holds exactly the available indices below `n`, in increasing order. */
  lemma {:induction false} AvailableBelowFacts(states: map<nat, AccountState>, n: nat)
    ensures var r := AvailableBelow(states, n);
      && (forall j :: 0 <= j < |r| ==> r[j] < n)
      && (forall j, k :: 0 <= j < k < |r| ==> r[j] < r[k])
      && (forall i: nat :: i in r <==> i < n && StateAvailable(states, i))
  {
    if n > 0 {
      AvailableBelowFacts(states, n - 1);
    }
  }

  /** Every listed index is below `n` and available. */
  lemma {:induction false} AvailableBelowBound(states: map<nat, AccountState>, n: nat)
    ensures forall j :: 0 <= j < |AvailableBelow(states, n)| ==>
      AvailableBelow(states, n)[j] < n && StateAvailable(states, AvailableBelow(states, n)[j])
  {
    if n > 0 {
      AvailableBelowBound(states, n - 1);
      var prev := AvailableBelow(states, n - 1);
      var last: seq<nat> := if StateAvailable(states, n - 1) then [n - 1] else [];
      assert AvailableBelow(states, n) == prev + last;
      forall j | 0 <= j < |prev + last|
        ensures (prev + last)[j] < n && StateAvailable(states, (prev + last)[j])
      {
        if j < |prev| {
          assert (prev + last)[j] == prev[j];
        } else {
          assert (prev + last)[j] == last[j - |prev|];
        }
      }
    }
  }

  /** The indices `get_available_accounts` lists. */
  function AvailableIndices(p: Pool): seq<nat>
  {
    AvailableBelow(p.states, |p.accounts|)
  }

  /** `get_next_account`: the error leaves the pool as it was; otherwise the cursor,
      first reduced modulo the number of available accounts, picks one of them and moves
      on by one. */
  function NextAccount(p: Pool): (r: (Result<nat>, Pool))
    ensures r.1.accounts == p.accounts && r.1.states == p.states
    ensures r.0.Err? <==> AvailableIndices(p) == []
    ensures r.0.Err? ==> r.1 == p && r.0.msg == NoAccountsMessage
    ensures r.0.Ok? ==>
      && r.0.value < |p.accounts| && StateAvailable(p.states, r.0.value)
      && r.1.cursor < |AvailableIndices(p)|
  {
    AvailableBelowBound(p.states, |p.accounts|);
    var avail := AvailableIndices(p);
    if |avail| == 0 then (Err(NoAccountsMessage), p)
    else
      var c := p.cursor % |avail|;
      (Ok(avail[c]), p.(cursor := (c + 1) % |avail|))
  }

  /** The indices `n` consecutive calls of `get_next_account` return. */
  function Picks(p: Pool, n: nat): seq<nat>
    decreases n
  {
    if n == 0 then []
    else
      match NextAccount(p)
      case (Ok(i), q) => [i] + Picks(q, n - 1)
      case (Err(_), _) => []
  }

  /** `n` elements of `s` read cyclically from position `c`. */
  function Cycle(s: seq<nat>, c: nat, n: nat): (r: seq<nat>)
    requires c < |s|
    ensures |r| == n
    decreases n
  {
    if n == 0 then [] else [s[c]] + Cycle(s, if c + 1 == |s| then 0 else c + 1, n - 1)
  }

  lemma ModSmall(x: nat, k: nat)
    requires 0 < k && x < 2 * k
    ensures x % k == if x < k then x else x - k
  {
  }

  /** Consecutive picks walk the available indices cyclically from the cursor. */
  lemma {:induction false} PicksCycle(p: Pool, n: nat)
    requires |AvailableIndices(p)| > 0
    ensures Picks(p, n) == Cycle(AvailableIndices(p), p.cursor % |AvailableIndices(p)|, n)
    decreases n
  {
    if n > 0 {
      var avail := AvailableIndices(p);
      var k := |avail|;
      var c := p.cursor % k;
      var q := p.(cursor := (c + 1) % k);
      assert NextAccount(p) == (Ok(avail[c]), q);
      assert AvailableIndices(q) == avail;
      ModSmall(c + 1, k);
      ModSmall(q.cursor, k);
      PicksCycle(q, n - 1);
    }
  }

  lemma {:induction false} CycleStraight(s: seq<nat>, c: nat, n: nat)
    requires c < |s| && n <= |s| - c
    ensures Cycle(s, c, n) == s[c..c + n]
    decreases n
  {
    if n > 1 {
      CycleStraight(s, c + 1, n - 1);
    }
  }

  lemma {:induction false} CycleWrap(s: seq<nat>, c: nat, n: nat)
    requires c < |s| && |s| - c < n
    ensures Cycle(s, c, n) == s[c..] + Cycle(s, 0, n - (|s| - c))
    decreases |s| - c
  {
    if c + 1 < |s| {
      CycleWrap(s, c + 1, n - 1);
      assert s[c..] == [s[c]] + s[c + 1..];
    }
  }

  /** Reading all of `s` cyclically from `c` is the rotation of `s` at `c`. */
  lemma CycleRotation(s: seq<nat>, c: nat)
    requires c < |s|
    ensures Cycle(s, c, |s|) == s[c..] + s[..c]
  {
    if c == 0 {
      CycleStraight(s, 0, |s|);
    } else {
      CycleWrap(s, c, |s|);
      CycleStraight(s, 0, c);
    }
  }

  /** A rotation of a strictly increasing sequence holds the same elements, each once. */
  lemma RotationDistinct(s: seq<nat>, c: nat)
    requires c < |s| && forall a, b :: 0 <= a < b < |s| ==> s[a] < s[b]
    ensures var r := s[c..] + s[..c];
      && (forall x :: x in r <==> x in s)
      && (forall a, b :: 0 <= a < b < |r| ==> r[a] != r[b])
  {
    var r := s[c..] + s[..c];
    var k := |s|;
    assert s == s[..c] + s[c..];
    assert multiset(r) == multiset(s);
    forall x
      ensures x in r <==> x in s
    {
      assert x in r <==> x in multiset(r);
      assert x in s <==> x in multiset(s);
    }
    forall a, b | 0 <= a < b < k
      ensures r[a] != r[b]
    {
      if b < k - c || a >= k - c {
        assert r[a] < r[b];
      } else {
        assert r[a] == s[c + a] && r[b] == s[b - (k - c)];
      }
    }
  }

  /** Fairness: with k accounts available and no change of availability, k consecutive
      calls of `get_next_account` return the available indices rotated to start at the
      cursor, so every available index exactly once. */
  lemma RoundRobinEachOnce(p: Pool)
    requires |AvailableIndices(p)| > 0
    ensures var avail := AvailableIndices(p); var k := |avail|; var picks := Picks(p, k);
      && picks == avail[p.cursor % k..] + avail[..p.cursor % k]
      && (forall i: nat :: i in picks <==> i < |p.accounts| && StateAvailable(p.states, i))
      && (forall a, b :: 0 <= a < b < k ==> picks[a] != picks[b])
  {
    var avail := AvailableIndices(p);
    var c := p.cursor % |avail|;
    AvailableBelowFacts(p.states, |p.accounts|);
    PicksCycle(p, |avail|);
    CycleRotation(avail, c);
    RotationDistinct(avail, c);
  }

  /** `get_account_count`: the total and the available count. */
  function AccountCount(p: Pool): (r: (nat, nat))
  {
    (|p.accounts|, |AvailableIndices(p)|)
  }

  // ---------------------------------------------------------------------------
  // mark_account_unavailable
  // ---------------------------------------------------------------------------

  /** `mark_account_unavailable`: an index outside the list changes nothing; otherwise
      the account and its state become unavailable and the account records the reason
      and the time. The source reads `account_states[index]` without a default. */
  function MarkUnavailable(p: Pool, index: int, reason: string, now: nat): (q: Pool)
    requires 0 <= index < |p.accounts| ==> index in p.states
    ensures |q.accounts| == |p.accounts| && q.cursor == p.cursor && q.states.Keys == p.states.Keys
    ensures !(0 <= index < |p.accounts|) ==> q == p
    ensures 0 <= index < |p.accounts| ==>
      && !q.accounts[index].available && !q.states[index].available
      && q.accounts[index].unavailableReason == Some(reason)
      && q.accounts[index].unavailableTime == Some(now)
    ensures forall i :: 0 <= i < |p.accounts| && i != index ==> q.accounts[i] == p.accounts[i]
    ensures forall i :: i in p.states && i != index ==> q.states[i] == p.states[i]
  {
    if 0 <= index < |p.accounts| then
      var a := p.accounts[index];
      p.(accounts := p.accounts[index := a.(available := false, unavailableReason := Some(reason),
                                            unavailableTime := Some(now))],
         states := p.states[index := p.states[index].(available := false)])
    else p
  }

  /** Marking twice is marking once with the later reason and time. */
  lemma MarkIdempotent(p: Pool, index: int, r1: string, t1: nat, r2: string, t2: nat)
    requires 0 <= index < |p.accounts| ==> index in p.states
    ensures MarkUnavailable(MarkUnavailable(p, index, r1, t1), index, r2, t2) == MarkUnavailable(p, index, r2, t2)
  {
  }

  lemma {:induction false} AvailableBelowDrop(states: map<nat, AccountState>, index: nat, s: AccountState, n: nat)
    requires !s.available
    ensures |AvailableBelow(states[index := s], n)|
         == |AvailableBelow(states, n)| - (if index < n && StateAvailable(states, index) then 1 else 0)
  {
    if n > 0 {
      AvailableBelowDrop(states, index, s, n - 1);
      var t := states[index := s];
      assert StateAvailable(t, n - 1) == (n - 1 != index && StateAvailable(states, n - 1));
      assert |AvailableBelow(t, n)| == |AvailableBelow(t, n - 1)| + (if StateAvailable(t, n - 1) then 1 else 0);
      assert |AvailableBelow(states, n)| == |AvailableBelow(states, n - 1)| + (if StateAvailable(states, n - 1) then 1 else 0);
    }
  }

  /** `get_account_count` after a mark: the marked account leaves the available list,
      nothing else does, and the available count drops by one exactly when the account
      was available before; so a repeated mark is counted once. */
  lemma MarkCount(p: Pool, index: int, reason: string, now: nat)
    requires 0 <= index < |p.accounts| ==> index in p.states
    ensures var q := MarkUnavailable(p, index, reason, now);
      && AccountCount(q).0 == AccountCount(p).0
      && (forall i: nat :: i in AvailableIndices(q) <==> i in AvailableIndices(p) && i != index)
      && AccountCount(q).1 == AccountCount(p).1
           - (if 0 <= index < |p.accounts| && StateAvailable(p.states, index) then 1 else 0)
  {
    var q := MarkUnavailable(p, index, reason, now);
    AvailableBelowFacts(p.states, |p.accounts|);
    AvailableBelowFacts(q.states, |p.accounts|);
    if 0 <= index < |p.accounts| {
      AvailableBelowDrop(p.states, index, p.states[index].(available := false), |p.accounts|);
    }
  }

  lemma MarkValid(p: Pool, index: int, reason: string, now: nat)
    requires Valid(p)
    ensures Valid(MarkUnavailable(p, index, reason, now))
  {
  }

  // ---------------------------------------------------------------------------
  // ensure_jwt_for_account, ensure_session_for_account, reset_all_sessions
  // ---------------------------------------------------------------------------

  /** The refresh test of `ensure_jwt_for_account`: no token, an empty one (its age
      counts as infinite), or one older than 240 seconds. */
  predicate NeedsRefresh(st: AccountState, now: nat)
  {
    st.jwt.None? || st.jwt.value == "" || now > st.jwtTime + JwtMaxAge
  }

  /** `ensure_jwt_for_account`. `exchange` is the outcome `get_jwt_for_account` would
      have (its token or the text of its exception); it is consulted only on a refresh.
      A failed refresh marks the account unavailable with the error text and re-raises. */
  function EnsureJwt(p: Pool, idx: nat, now: nat, exchange: Result<string>): (r: (Result<string>, Pool))
    requires idx in p.states
    ensures r.1.cursor == p.cursor && |r.1.accounts| == |p.accounts| && r.1.states.Keys == p.states.Keys
  {
    var st := p.states[idx];
    if NeedsRefresh(st, now) then
      match exchange
      case Ok(token) => (Ok(token), p.(states := p.states[idx := st.(jwt := Some(token), jwtTime := now)]))
      case Err(e) => (Err(e), MarkUnavailable(p, idx, e, now))
    else (Ok(st.jwt.value), p)
  }

  /** A fresh token is returned as it is, the exchange is not consulted and the pool
      does not change. */
  lemma EnsureJwtCached(p: Pool, idx: nat, now: nat, e1: Result<string>, e2: Result<string>)
    requires idx in p.states && !NeedsRefresh(p.states[idx], now)
    ensures EnsureJwt(p, idx, now, e1) == EnsureJwt(p, idx, now, e2)
    ensures EnsureJwt(p, idx, now, e1) == (Ok(p.states[idx].jwt.value), p)
  {
  }

  /** A refresh installs the new token with `jwt_time = now` and touches nothing else;
      a failed one keeps the old token and time, marks the account unavailable with the
      error as its reason and propagates the error. */
  lemma EnsureJwtRefresh(p: Pool, idx: nat, now: nat, exchange: Result<string>)
    requires idx in p.states && idx < |p.accounts| && NeedsRefresh(p.states[idx], now)
    ensures var (r, q) := EnsureJwt(p, idx, now, exchange);
      && q.cursor == p.cursor && q.states.Keys == p.states.Keys
      && (exchange.Ok? ==>
            && r == exchange && q.accounts == p.accounts
            && q.states[idx].jwt == Some(exchange.value) && q.states[idx].jwtTime == now
            && q.states[idx].session == p.states[idx].session
            && q.states[idx].available == p.states[idx].available)
      && (exchange.Err? ==>
            && r == exchange
            && q.states[idx].jwt == p.states[idx].jwt && q.states[idx].jwtTime == p.states[idx].jwtTime
            && !q.states[idx].available && !q.accounts[idx].available
            && q.accounts[idx].unavailableReason == Some(exchange.msg))
      && (forall i :: i in p.states && i != idx ==> q.states[i] == p.states[i])
  {
  }

  /** What `ensure_session_for_account` returns: the session, the token, the team id. */
  datatype SessionInfo = SessionInfo(session: Option<string>, jwt: string, teamId: string)

  /** `ensure_session_for_account`: the token first (its failure propagates); then the
      cached session unless there is none or a new one is forced, in which case the
      outcome of `create_chat_session` (a name, possibly absent, or an error) is stored.
      A failed creation propagates and leaves the cached session as it was. */
  function EnsureSession(p: Pool, idx: nat, force: bool, now: nat, exchange: Result<string>,
                         create: Result<Option<string>>): (r: (Result<SessionInfo>, Pool))
    requires idx in p.states && idx < |p.accounts|
  {
    var (jr, p1) := EnsureJwt(p, idx, now, exchange);
    match jr
    case Err(e) => (Err(e), p1)
    case Ok(jwt) =>
      var st := p1.states[idx];
      if st.session.None? || force then
        match create
        case Err(e) => (Err(e), p1)
        case Ok(name) =>
          (Ok(SessionInfo(name, jwt, p.accounts[idx].teamId)), p1.(states := p1.states[idx := st.(session := name)]))
      else (Ok(SessionInfo(st.session, jwt, p.accounts[idx].teamId)), p1)
  }

  /** With a cached session and no forcing, the session is reused and creation is not
      consulted; otherwise a successful creation is what the cache holds afterwards.
      A session failure never makes an account unavailable. */
  lemma EnsureSessionCache(p: Pool, idx: nat, force: bool, now: nat, exchange: Result<string>,
                           c1: Result<Option<string>>, c2: Result<Option<string>>)
    requires idx in p.states && idx < |p.accounts|
    ensures var (jr, p1) := EnsureJwt(p, idx, now, exchange);
      var (r, q) := EnsureSession(p, idx, force, now, exchange, c1);
      && (jr.Err? ==> r == Err(jr.msg) && q == p1)
      && (jr.Ok? && p1.states[idx].session.Some? && !force ==>
            && EnsureSession(p, idx, force, now, exchange, c2) == (r, q)
            && r == Ok(SessionInfo(p1.states[idx].session, jr.value, p.accounts[idx].teamId)) && q == p1)
      && (jr.Ok? && (p1.states[idx].session.None? || force) ==>
            && (c1.Ok? ==> r.Ok? && r.value.session == c1.value && q.states[idx].session == c1.value
                           && r.value.jwt == jr.value)
            && (c1.Err? ==> r == Err(c1.msg) && q == p1))
      && q.accounts == p1.accounts
      && (forall i :: i in q.states ==> i in p1.states && q.states[i].available == p1.states[i].available)
  {
  }

  /** A session lookup keeps the accounts and the indices that have a state. */
  lemma EnsureSessionKeys(p: Pool, idx: nat, force: bool, now: nat, exchange: Result<string>,
                          create: Result<Option<string>>)
    requires idx in p.states && idx < |p.accounts|
    ensures var q := EnsureSession(p, idx, force, now, exchange, create).1;
      |q.accounts| == |p.accounts| && q.states.Keys == p.states.Keys
  {
  }

  /** Python truthiness of the cached session: present and not empty. */
  function ClearSession(st: AccountState): (r: AccountState)
    ensures r.jwt == st.jwt && r.jwtTime == st.jwtTime && r.available == st.available
    ensures r.session.None? || r.session == Some("")
  {
    if st.session.Some? && st.session.value != "" then st.(session := None) else st
  }

  /** `reset_all_sessions`: every state of an index in `range(len(accounts))` whose
      session is truthy loses it. Afterwards no account holds a non-empty session, and
      tokens, their times and availability are as they were. */
  function ResetAllSessions(p: Pool): (q: Pool)
    ensures q.accounts == p.accounts && q.cursor == p.cursor && q.states.Keys == p.states.Keys
    ensures forall i :: i in q.states && i < |p.accounts| ==>
      q.states[i].session.None? || q.states[i].session == Some("")
    ensures forall i :: i in q.states ==>
      && q.states[i].jwt == p.states[i].jwt && q.states[i].jwtTime == p.states[i].jwtTime
      && q.states[i].available == p.states[i].available
    ensures forall i :: i in q.states && i >= |p.accounts| ==> q.states[i] == p.states[i]
  {
    p.(states := map i | i in p.states :: if i < |p.accounts| then ClearSession(p.states[i]) else p.states[i])
  }

  /** After a reset the next `ensure_session_for_account` of an account that had a
      non-empty session or none creates a new one. */
  lemma ResetThenEnsureCreates(p: Pool, idx: nat, now: nat, exchange: Result<string>, name: Option<string>)
    requires idx in p.states && idx < |p.accounts| && p.states[idx].session != Some("")
    ensures var (jr, _) := EnsureJwt(ResetAllSessions(p), idx, now, exchange);
      var (r, q) := EnsureSession(ResetAllSessions(p), idx, false, now, exchange, Ok(name));
      jr.Ok? ==> r.Ok? && r.value.session == name && q.states[idx].session == name
  {
    var p0 := ResetAllSessions(p);
    assert p0.states[idx].session.None?;
  }

  // ---------------------------------------------------------------------------
  // The admin routes: add, update, delete, toggle, import
  // ---------------------------------------------------------------------------

  /** `data.get(key, default)` for a request body of string values. */
  function Field(data: map<string, string>, key: string, default: string): string
  {
    if key in data then data[key] else default
  }

  /** The record `add_account` builds from a request body. */
  function NewAccount(data: map<string, string>): (a: Account)
    ensures a.available && a.unavailableReason.None? && a.unavailableTime.None?
  {
    Account(Field(data, "team_id", ""), Field(data, "secure_c_ses", ""), Field(data, "host_c_oses", ""),
            Field(data, "csesidx", ""), Field(data, "user_agent", DefaultUserAgent), true, None, None)
  }

  /** `add_account`: appends the account, gives its index a fresh state and answers the index. */
  function AddAccount(p: Pool, data: map<string, string>): (r: (nat, Pool))
    ensures r.0 == |p.accounts| && r.1.accounts == p.accounts + [NewAccount(data)]
    ensures r.1.states == p.states[r.0 := FreshState(true)] && r.1.cursor == p.cursor
  {
    var idx := |p.accounts|;
    (idx, Pool(p.accounts + [NewAccount(data)], p.states[idx := FreshState(true)], p.cursor))
  }

  /** `update_account`: replaces the credential fields the body names. */
  function UpdateAccount(p: Pool, id: int, data: map<string, string>): (r: (Result<()>, Pool))
    ensures r.0.Err? <==> !(0 <= id < |p.accounts|)
    ensures r.0.Err? ==> r.1 == p && r.0.msg == NotFoundMessage
    ensures r.1.states == p.states && r.1.cursor == p.cursor && |r.1.accounts| == |p.accounts|
    ensures forall i :: 0 <= i < |p.accounts| && i != id ==> r.1.accounts[i] == p.accounts[i]
  {
    if id < 0 || id >= |p.accounts| then (Err(NotFoundMessage), p)
    else
      var a := p.accounts[id];
      var a' := a.(teamId := Field(data, "team_id", a.teamId), secureCSes := Field(data, "secure_c_ses", a.secureCSes),
                   hostCOses := Field(data, "host_c_oses", a.hostCOses), csesidx := Field(data, "csesidx", a.csesidx),
                   userAgent := Field(data, "user_agent", a.userAgent));
      (Ok(()), p.(accounts := p.accounts[id := a']))
  }

  /** The old index whose state lands on new index `i` after deleting `id`. */
  function Shifted(id: nat, i: nat): nat
  {
    if i < id then i else i + 1
  }

  /** `delete_account`: removes the account and rebuilds the state map so that every
      later state moves down one index. A slot whose source index had no state is left
      without one. The cursor is not touched. */
  function DeleteAccount(p: Pool, id: int): (r: (Result<()>, Pool))
    ensures r.0.Err? <==> !(0 <= id < |p.accounts|)
    ensures r.0.Err? ==> r.1 == p && r.0.msg == NotFoundMessage
    ensures r.0.Ok? ==>
      && |r.1.accounts| == |p.accounts| - 1 && r.1.cursor == p.cursor
      && (forall i: nat :: i < |r.1.accounts| ==> r.1.accounts[i] == p.accounts[Shifted(id, i)])
      && (forall i: nat :: i in r.1.states <==> i < |r.1.accounts| && Shifted(id, i) in p.states)
      && (forall i: nat :: i in r.1.states ==> r.1.states[i] == p.states[Shifted(id, i)])
  {
    if id < 0 || id >= |p.accounts| then (Err(NotFoundMessage), p)
    else
      var n := |p.accounts| - 1;
      var states := map i: nat | i < n && Shifted(id, i) in p.states :: p.states[Shifted(id, i)];
      (Ok(()), Pool(p.accounts[..id] + p.accounts[id + 1..], states, p.cursor))
  }

  /** Deleting the account just added gives back the pool as it was. */
  lemma AddThenDelete(p: Pool, data: map<string, string>)
    requires Valid(p)
    ensures var (id, q) := AddAccount(p, data); DeleteAccount(q, id) == (Ok(()), p)
  {
    var (id, q) := AddAccount(p, data);
    var (_, d) := DeleteAccount(q, id);
    assert q.accounts[..id] == p.accounts && q.accounts[id + 1..] == [];
    assert d.accounts == p.accounts;
    forall i: nat
      ensures (i in d.states <==> i in p.states) && (i in d.states ==> d.states[i] == p.states[i])
    {
      if i < id {
        assert Shifted(id, i) == i;
      }
    }
    assert d.states == p.states;
  }

  /** `toggle_account`: flips the availability (taken from the state, default True) on
      the account and on its state, and clears the reason and time when it re-enables.
      With no state at that index the source flips a throw-away dictionary, so only the
      account changes. Answers the new availability. */
  function ToggleAccount(p: Pool, id: int): (r: (Result<bool>, Pool))
    ensures r.0.Err? <==> !(0 <= id < |p.accounts|)
    ensures r.0.Err? ==> r.1 == p && r.0.msg == NotFoundMessage
    ensures r.0.Ok? ==>
      && r.0.value == !StateAvailable(p.states, id)
      && |r.1.accounts| == |p.accounts| && r.1.cursor == p.cursor && r.1.states.Keys == p.states.Keys
      && r.1.accounts[id].available == r.0.value
      && (id in p.states ==> r.1.states[id].available == r.0.value)
      && (r.0.value ==> r.1.accounts[id].unavailableReason.None? && r.1.accounts[id].unavailableTime.None?)
      && (forall i :: 0 <= i < |p.accounts| && i != id ==> r.1.accounts[i] == p.accounts[i])
      && (forall i :: i in p.states && i != id ==> r.1.states[i] == p.states[i])
  {
    if id < 0 || id >= |p.accounts| then (Err(NotFoundMessage), p)
    else
      var current := StateAvailable(p.states, id);
      var a := p.accounts[id].(available := !current);
      var a' := if !current then a.(unavailableReason := None, unavailableTime := None) else a;
      var states := if id in p.states then p.states[id := p.states[id].(available := !current)] else p.states;
      (Ok(!current), p.(accounts := p.accounts[id := a'], states := states))
  }

  /** Toggling twice restores every state (in particular the availability) of a valid pool. */
  lemma ToggleTwice(p: Pool, id: int)
    requires Valid(p) && 0 <= id < |p.accounts|
    ensures var q := ToggleAccount(ToggleAccount(p, id).1, id).1;
      q.states == p.states && q.accounts[id].available == p.accounts[id].available
  {
    var q1 := ToggleAccount(p, id).1;
    var q := ToggleAccount(q1, id).1;
    assert q.states[id] == p.states[id];
  }

  /** `import_config`: the accounts are replaced and every index gets a fresh state whose
      availability is the account's own. The cursor is not touched. */
  function ImportConfig(p: Pool, accounts: seq<Account>): (q: Pool)
    ensures Valid(q)
    ensures q.accounts == accounts && q.cursor == p.cursor
    ensures forall i: nat :: i in q.states ==> q.states[i] == FreshState(accounts[i].available)
  {
    Pool(accounts, map i: nat | i < |accounts| :: FreshState(accounts[i].available), p.cursor)
  }

  /** `AccountManager()` followed by `load_config()` on the configured accounts. */
  function LoadConfig(accounts: seq<Account>): (q: Pool)
  {
    ImportConfig(Pool([], map[], 0), accounts)
  }

  /** Every operation keeps the pool invariant. */
  lemma NextAccountValid(p: Pool)
    requires Valid(p)
    ensures Valid(NextAccount(p).1)
  {
  }

  lemma AddAccountValid(p: Pool, data: map<string, string>)
    requires Valid(p)
    ensures Valid(AddAccount(p, data).1)
  {
  }

  lemma UpdateAccountValid(p: Pool, id: int, data: map<string, string>)
    requires Valid(p)
    ensures Valid(UpdateAccount(p, id, data).1)
  {
  }

  lemma DeleteAccountValid(p: Pool, id: int)
    requires Valid(p)
    ensures Valid(DeleteAccount(p, id).1)
  {
    var (dr, d) := DeleteAccount(p, id);
    if dr.Ok? {
      forall i: nat | i < |d.accounts|
        ensures i in d.states && d.states[i].available == d.accounts[i].available
      {
        assert Shifted(id, i) < |p.accounts|;
      }
    }
  }

  lemma ToggleAccountValid(p: Pool, id: int)
    requires Valid(p)
    ensures Valid(ToggleAccount(p, id).1)
  {
  }

  lemma ResetAllSessionsValid(p: Pool)
    requires Valid(p)
    ensures Valid(ResetAllSessions(p))
  {
  }

  lemma EnsureJwtValid(p: Pool, idx: nat, now: nat, exchange: Result<string>)
    requires Valid(p) && idx < |p.accounts|
    ensures Valid(EnsureJwt(p, idx, now, exchange).1)
  {
  }

  lemma EnsureSessionValid(p: Pool, idx: nat, force: bool, now: nat, exchange: Result<string>,
                           create: Result<Option<string>>)
    requires Valid(p) && idx < |p.accounts|
    ensures Valid(EnsureSession(p, idx, force, now, exchange, create).1)
  {
    EnsureJwtValid(p, idx, now, exchange);
  }
}
