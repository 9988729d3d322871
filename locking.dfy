/** The account manager's lock around `ensure_jwt_for_account`. The lock is a
    `threading.Lock`, which is not reentrant: a thread that acquires it while already
    holding it waits for itself forever. `ensure_jwt_for_account` keeps the lock while
    it refreshes the token, and on a failed refresh calls `mark_account_unavailable`,
    which acquires the same lock again. */
module Locking {
  import opened Common
  import opened PoolModel

  /** A call that either returns or never returns. */
  datatype Blocking<T> = Returned(value: T) | Blocked

  /** `mark_account_unavailable` entered with the lock held by the caller (`held`) or
      free. Its first step is to acquire the lock. */
  function MarkLocked(held: bool, p: Pool, index: int, reason: string, now: nat): (r: Blocking<Pool>)
    requires 0 <= index < |p.accounts| ==> index in p.states
    ensures r.Blocked? <==> held
    ensures r.Returned? ==> r.value == MarkUnavailable(p, index, reason, now)
  {
    if held then Blocked else Returned(MarkUnavailable(p, index, reason, now))
  }

  /** `ensure_jwt_for_account` with the failed refresh marking the account while the
      lock is still held (`markUnderLock`, as the source does) or after it has been
      released. */
  function EnsureJwtLocked(markUnderLock: bool, p: Pool, idx: nat, now: nat, exchange: Result<string>)
    : (r: Blocking<(Result<string>, Pool)>)
    requires idx in p.states
  {
    var st := p.states[idx];
    if NeedsRefresh(st, now) then
      match exchange
      case Ok(token) => Returned((Ok(token), p.(states := p.states[idx := st.(jwt := Some(token), jwtTime := now)])))
      case Err(e) =>
        match MarkLocked(markUnderLock, p, idx, e, now)
        case Blocked => Blocked
        case Returned(q) => Returned((Err(e), q))
    else Returned((Ok(st.jwt.value), p))
  }

  /** As written: a stale token whose refresh fails never returns; the thread keeps the
      lock, so every later request that needs it waits as well. */
  lemma FailedRefreshDeadlocks(p: Pool, idx: nat, now: nat, exchange: Result<string>)
    requires idx in p.states && NeedsRefresh(p.states[idx], now) && exchange.Err?
    ensures EnsureJwtLocked(true, p, idx, now, exchange) == Blocked
  {
  }

  /** As written, every other case returns what `EnsureJwt` describes. */
  lemma AsWrittenOtherwise(p: Pool, idx: nat, now: nat, exchange: Result<string>)
    requires idx in p.states && !(NeedsRefresh(p.states[idx], now) && exchange.Err?)
    ensures EnsureJwtLocked(true, p, idx, now, exchange) == Returned(EnsureJwt(p, idx, now, exchange))
  {
  }

  /** Marking after the lock is released always returns, with the outcome of
      `EnsureJwt`: on a failed refresh the account is unavailable, records the error
      and the error propagates. */
  lemma MarkAfterReleaseReturns(p: Pool, idx: nat, now: nat, exchange: Result<string>)
    requires idx in p.states && idx < |p.accounts|
    ensures var r := EnsureJwtLocked(false, p, idx, now, exchange);
      && r == Returned(EnsureJwt(p, idx, now, exchange))
      && (NeedsRefresh(p.states[idx], now) && exchange.Err? ==>
            && r.value.0 == exchange
            && !r.value.1.accounts[idx].available && !r.value.1.states[idx].available
            && r.value.1.accounts[idx].unavailableReason == Some(exchange.msg))
  {
    if NeedsRefresh(p.states[idx], now) {
      EnsureJwtRefresh(p, idx, now, exchange);
    }
  }
}
