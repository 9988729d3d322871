/** `AccountManager` of gemini.py as a mutable object, together with the functions of the
    token and session cache and the admin routes that change its fields in place. Every
    method is proved to leave the object in the state the function of the same name in
    `PoolModel` computes, and to keep the pool invariant. */
module AccountPool {
  import opened Common
  import opened PoolModel

  /** The fresh states `load_config` and `import_config` build, one per account. */
  method FreshStates(accounts: seq<Account>) returns (states: map<nat, AccountState>)
    ensures forall i: nat :: i in states <==> i < |accounts|
    ensures forall i: nat :: i in states ==> states[i] == FreshState(accounts[i].available)
  {
    states := map[];
    var i := 0;
    while i < |accounts|
      invariant 0 <= i <= |accounts|
      invariant forall k: nat :: k in states <==> k < i
      invariant forall k: nat :: k in states ==> states[k] == FreshState(accounts[k].available)
    {
      states := states[i := FreshState(accounts[i].available)];
      i := i + 1;
    }
  }

  /** The loop of `delete_account` that moves every state after `id` down one index. */
  method ShiftStates(states: map<nat, AccountState>, id: nat, n: nat)
    returns (shifted: map<nat, AccountState>)
    ensures forall k: nat :: k in shifted <==> k < n && Shifted(id, k) in states
    ensures forall k: nat :: k in shifted ==> shifted[k] == states[Shifted(id, k)]
  {
    shifted := map[];
    var i := 0;
    while i < n
      invariant 0 <= i <= n
      invariant forall k: nat :: k in shifted <==> k < i && Shifted(id, k) in states
      invariant forall k: nat :: k in shifted ==> shifted[k] == states[Shifted(id, k)]
    {
      var src := if i < id then i else i + 1;
      if src in states {
        shifted := shifted[i := states[src]];
      }
      i := i + 1;
    }
  }

  class AccountManager {
    var accounts: seq<Account>
    var states: map<nat, AccountState>
    var cursor: nat

    function Model(): Pool
      reads this
    {
      Pool(accounts, states, cursor)
    }

    ghost predicate Valid()
      reads this
    {
      PoolModel.Valid(Model())
    }

    /** `AccountManager()` followed by `load_config()` with the configured accounts. */
    constructor(configured: seq<Account>)
      ensures Model() == LoadConfig(configured) && Valid()
    {
      accounts := configured;
      cursor := 0;
      var built := FreshStates(configured);
      states := built;
      new;
      assert states == LoadConfig(configured).states;
    }

    /** `get_available_accounts`: the available indices in order, with their accounts. */
    method GetAvailableAccounts() returns (r: seq<(nat, Account)>)
      ensures |r| == |AvailableIndices(Model())|
      ensures forall j :: 0 <= j < |r| ==>
        r[j].0 == AvailableIndices(Model())[j] && r[j].0 < |accounts| && r[j].1 == accounts[r[j].0]
    {
      r := [];
      var i := 0;
      while i < |accounts|
        invariant 0 <= i <= |accounts|
        invariant |r| == |AvailableBelow(states, i)|
        invariant forall j :: 0 <= j < |r| ==>
          r[j].0 == AvailableBelow(states, i)[j] && r[j].0 < i && r[j].1 == accounts[r[j].0]
      {
        if i !in states || states[i].available {
          r := r + [(i, accounts[i])];
        }
        i := i + 1;
      }
    }

    /** `get_next_account`. */
    method GetNextAccount() returns (r: Result<(nat, Account)>)
      requires Valid()
      modifies this
      ensures Valid()
      ensures var (res, q) := NextAccount(old(Model()));
        && Model() == q
        && (res.Err? ==> r == Err(res.msg))
        && (res.Ok? ==> r == Ok((res.value, accounts[res.value])))
    {
      NextAccountValid(Model());
      var available := GetAvailableAccounts();
      if |available| == 0 {
        return Err(NoAccountsMessage);
      }
      cursor := cursor % |available|;
      var (idx, account) := available[cursor];
      cursor := (cursor + 1) % |available|;
      r := Ok((idx, account));
    }

    /** `mark_account_unavailable`. */
    method MarkAccountUnavailable(index: int, reason: string, now: nat)
      requires Valid()
      modifies this
      ensures Valid()
      ensures Model() == MarkUnavailable(old(Model()), index, reason, now)
    {
      MarkValid(Model(), index, reason, now);
      if 0 <= index < |accounts| {
        var a := accounts[index];
        accounts := accounts[index := a.(available := false, unavailableReason := Some(reason),
                                         unavailableTime := Some(now))];
        states := states[index := states[index].(available := false)];
      }
    }

    /** `get_account_count`. */
    method GetAccountCount() returns (total: nat, available: nat)
      ensures (total, available) == AccountCount(Model())
      ensures available <= total
    {
      total := |accounts|;
      var avail := GetAvailableAccounts();
      available := |avail|;
    }

    /** `ensure_jwt_for_account`. */
    method EnsureJwt(idx: nat, now: nat, exchange: Result<string>) returns (r: Result<string>)
      requires Valid() && idx < |accounts|
      modifies this
      ensures Valid()
      ensures (r, Model()) == PoolModel.EnsureJwt(old(Model()), idx, now, exchange)
    {
      EnsureJwtValid(Model(), idx, now, exchange);
      var st := states[idx];
      if st.jwt.None? || st.jwt.value == "" || now > st.jwtTime + JwtMaxAge {
        match exchange
        case Ok(token) =>
          states := states[idx := st.(jwt := Some(token), jwtTime := now)];
          r := Ok(token);
        case Err(e) =>
          MarkAccountUnavailable(idx, e, now);
          r := Err(e);
      } else {
        r := Ok(st.jwt.value);
      }
    }

    /** `ensure_session_for_account`. */
    method EnsureSession(idx: nat, force: bool, now: nat, exchange: Result<string>,
                         create: Result<Option<string>>) returns (r: Result<SessionInfo>)
      requires Valid() && idx < |accounts|
      modifies this
      ensures Valid()
      ensures (r, Model()) == PoolModel.EnsureSession(old(Model()), idx, force, now, exchange, create)
    {
      EnsureSessionValid(Model(), idx, force, now, exchange, create);
      var teamId := accounts[idx].teamId;
      var jr := EnsureJwt(idx, now, exchange);
      if jr.Err? {
        return Err(jr.msg);
      }
      var st := states[idx];
      if st.session.None? || force {
        match create
        case Err(e) =>
          return Err(e);
        case Ok(name) =>
          states := states[idx := st.(session := name)];
          r := Ok(SessionInfo(name, jr.value, teamId));
      } else {
        r := Ok(SessionInfo(st.session, jr.value, teamId));
      }
    }

    /** `reset_all_sessions`: the loop over `range(len(accounts))`. */
    method ResetAllSessions()
      requires Valid()
      modifies this
      ensures Valid()
      ensures Model() == PoolModel.ResetAllSessions(old(Model()))
    {
      ResetAllSessionsValid(Model());
      var before := states;
      var cleared := states;
      var i := 0;
      while i < |accounts|
        invariant 0 <= i <= |accounts|
        invariant cleared.Keys == before.Keys
        invariant forall k :: k in cleared ==>
          cleared[k] == if k < i then ClearSession(before[k]) else before[k]
      {
        if i in cleared && cleared[i].session.Some? && cleared[i].session.value != "" {
          cleared := cleared[i := cleared[i].(session := None)];
        }
        i := i + 1;
      }
      assert cleared == PoolModel.ResetAllSessions(Model()).states;
      states := cleared;
    }

    /** `add_account`: answers the new index. */
    method AddAccount(data: map<string, string>) returns (id: nat)
      requires Valid()
      modifies this
      ensures Valid()
      ensures (id, Model()) == PoolModel.AddAccount(old(Model()), data)
    {
      AddAccountValid(Model(), data);
      accounts := accounts + [NewAccount(data)];
      id := |accounts| - 1;
      states := states[id := FreshState(true)];
    }

    /** `update_account`. */
    method UpdateAccount(id: int, data: map<string, string>) returns (r: Result<()>)
      requires Valid()
      modifies this
      ensures Valid()
      ensures (r, Model()) == PoolModel.UpdateAccount(old(Model()), id, data)
    {
      UpdateAccountValid(Model(), id, data);
      if id < 0 || id >= |accounts| {
        return Err(NotFoundMessage);
      }
      var a := accounts[id];
      if "team_id" in data { a := a.(teamId := data["team_id"]); }
      if "secure_c_ses" in data { a := a.(secureCSes := data["secure_c_ses"]); }
      if "host_c_oses" in data { a := a.(hostCOses := data["host_c_oses"]); }
      if "csesidx" in data { a := a.(csesidx := data["csesidx"]); }
      if "user_agent" in data { a := a.(userAgent := data["user_agent"]); }
      accounts := accounts[id := a];
      r := Ok(());
    }

    /** `delete_account`: pops the account, then rebuilds the state map index by index. */
    method DeleteAccount(id: int) returns (r: Result<()>)
      requires Valid()
      modifies this
      ensures Valid()
      ensures (r, Model()) == PoolModel.DeleteAccount(old(Model()), id)
    {
      DeleteAccountValid(Model(), id);
      if id < 0 || id >= |accounts| {
        return Err(NotFoundMessage);
      }
      ghost var expected := PoolModel.DeleteAccount(Model(), id).1;
      var kept := accounts[..id] + accounts[id + 1..];
      var newStates := ShiftStates(states, id, |kept|);
      assert newStates == expected.states;
      accounts, states := kept, newStates;
      r := Ok(());
    }

    /** `toggle_account`: answers the new availability. */
    method ToggleAccount(id: int) returns (r: Result<bool>)
      requires Valid()
      modifies this
      ensures Valid()
      ensures (r, Model()) == PoolModel.ToggleAccount(old(Model()), id)
    {
      ToggleAccountValid(Model(), id);
      if id < 0 || id >= |accounts| {
        return Err(NotFoundMessage);
      }
      var current := id !in states || states[id].available;
      if id in states {
        states := states[id := states[id].(available := !current)];
      }
      var a := accounts[id].(available := !current);
      if !current {
        a := a.(unavailableReason := None, unavailableTime := None);
      }
      accounts := accounts[id := a];
      r := Ok(!current);
    }

    /** `import_config`: new accounts, every state rebuilt. */
    method ImportConfig(imported: seq<Account>)
      modifies this
      ensures Valid()
      ensures Model() == PoolModel.ImportConfig(old(Model()), imported)
    {
      accounts := imported;
      var built := FreshStates(imported);
      states := built;
      assert states == PoolModel.ImportConfig(old(Model()), imported).states;
    }
  }
}
