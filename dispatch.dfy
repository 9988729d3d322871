/** The retry loop of the chat route: up to one attempt per configured account, each
    picking the next account, making sure it has a token and a session, uploading the
    inline images and sending the message, stopping at the first answer. The upstream
    calls of each attempt are given as `Answers`. */
module Dispatch {
  import opened Common
  import opened PoolModel
  import opened Content
  import AccountPool

  /** What the outside world answers during one attempt: the clock, the outcome of the
      token exchange (consulted only when the cached token is stale), of the session
      creation (consulted only when a session is needed), of each inline image upload
      (the upload swallows its own errors and gives no id), and of the chat call for
      the file ids it is sent. */
  datatype Answers = Answers(now: nat, exchange: Result<string>, create: Result<Option<string>>,
                             uploads: seq<Option<string>>, chat: seq<string> -> Result<ChatResponse>)

  /** How the loop ends: an answer from the account at `index`, sent with `fileIds`; or
      all attempts failed (the route answers 500 with the last error, `None` when no
      attempt was made); or the handler itself raised, because the first attempt found
      no account and its error message names an index that was never bound. */
  datatype Outcome =
    | Served(index: nat, response: ChatResponse, fileIds: seq<string>)
    | AllFailed(lastError: Option<string>)
    | Aborted

  /** The truthy upload results, in order. */
  function Uploaded(uploads: seq<Option<string>>): (r: seq<string>)
    ensures |r| <= |uploads|
    ensures forall i :: 0 <= i < |r| ==> r[i] != []
  {
    if uploads == [] then []
    else
      var u := uploads[|uploads| - 1];
      Uploaded(uploads[..|uploads| - 1]) + (if u.Some? && u.value != [] then [u.value] else [])
  }

  /** No account that was unavailable has become available again. */
  ghost predicate NoneRevived(p: Pool, q: Pool)
  {
    && |q.accounts| == |p.accounts|
    && forall i :: 0 <= i < |p.accounts| && q.accounts[i].available ==> p.accounts[i].available
  }

  /** The result of one attempt, the pool after it, the file ids gathered so far, and
      whether an account was picked. */
  datatype Step = Step(result: Result<(nat, ChatResponse)>, pool: Pool, fileIds: seq<string>, picked: bool)

  /** One pass of the loop body. */
  function Attempt(p: Pool, force: bool, fileIds: seq<string>, a: Answers): (s: Step)
    requires Keyed(p)
    ensures Keyed(s.pool) && |s.pool.accounts| == |p.accounts|
  {
    var (pick, p1) := NextAccount(p);
    if pick.Err? then Step(Err(pick.msg), p1, fileIds, false)
    else
      var idx := pick.value;
      EnsureSessionKeys(p1, idx, force, a.now, a.exchange, a.create);
      var (sr, p2) := EnsureSession(p1, idx, force, a.now, a.exchange, a.create);
      if sr.Err? then Step(Err(sr.msg), p2, fileIds, true)
      else
        var ids := fileIds + Uploaded(a.uploads);
        match a.chat(ids)
        case Ok(response) => Step(Ok((idx, response)), p2, ids, true)
        case Err(e) => Step(Err(e), p2, ids, true)
  }

  /** An attempt picks an account exactly when one is available, and otherwise changes
      nothing and fails with the error of `get_next_account`. */
  lemma AttemptPicks(p: Pool, force: bool, fileIds: seq<string>, a: Answers)
    requires Keyed(p)
    ensures var s := Attempt(p, force, fileIds, a);
      && (s.picked <==> AvailableIndices(p) != [])
      && (!s.picked ==> s.pool == p && s.result == Err(NoAccountsMessage) && s.fileIds == fileIds)
  {
  }

  /** An attempt never re-enables an account, and disables none when the token exchange
      succeeds: a failed session creation or chat call leaves availability alone. */
  lemma AttemptAvailability(p: Pool, force: bool, fileIds: seq<string>, a: Answers)
    requires Keyed(p)
    ensures var s := Attempt(p, force, fileIds, a);
      && NoneRevived(p, s.pool)
      && (a.exchange.Ok? ==> s.pool.accounts == p.accounts)
  {
    var (pick, p1) := NextAccount(p);
    if pick.Ok? {
      var idx := pick.value;
      EnsureSessionCache(p1, idx, force, a.now, a.exchange, a.create, a.create);
      var (jr, q1) := EnsureJwt(p1, idx, a.now, a.exchange);
      if NeedsRefresh(p1.states[idx], a.now) {
        EnsureJwtRefresh(p1, idx, a.now, a.exchange);
      }
      assert NoneRevived(p, q1);
    }
  }

  /** The file ids of an attempt only grow; a successful attempt was served by an
      account that was available, with the chat answer for the resolved ids followed by
      the ids of the images it uploaded. */
  lemma AttemptServes(p: Pool, force: bool, fileIds: seq<string>, a: Answers)
    requires Keyed(p)
    ensures var s := Attempt(p, force, fileIds, a);
      && fileIds <= s.fileIds
      && (s.result.Ok? ==>
            && s.result.value.0 < |p.accounts| && StateAvailable(p.states, s.result.value.0)
            && s.fileIds == fileIds + Uploaded(a.uploads)
            && a.chat(s.fileIds) == Ok(s.result.value.1))
  {
  }

  lemma PrefixTransitive(a: seq<string>, b: seq<string>, c: seq<string>)
    requires a <= b && b <= c
    ensures a <= c
  {
    assert forall i :: 0 <= i < |a| ==> a[i] == b[i] == c[i];
  }

  lemma NoneRevivedTransitive(p: Pool, q: Pool, r: Pool)
    requires NoneRevived(p, q) && NoneRevived(q, r)
    ensures NoneRevived(p, r)
  {
  }

  /** The loop from attempt `retry` on, with `last` the error of the attempt before.
      Answers the outcome, the pool afterwards and the number of attempts made. */
  function Run(p: Pool, force: bool, fileIds: seq<string>, answers: nat -> Answers,
               retry: nat, maxRetries: nat, last: Option<string>): (r: (Outcome, Pool, nat))
    requires Keyed(p)
    ensures Keyed(r.1)
    decreases maxRetries - retry, 1
  {
    if retry >= maxRetries then (AllFailed(last), p, retry)
    else Proceed(Attempt(p, force, fileIds, answers(retry)), force, answers, retry, maxRetries)
  }

  /** What the loop does after attempt `retry`: break on an answer, escape the handler
      when the first attempt found no account, and otherwise go on with the next
      attempt, remembering the error. */
  function Proceed(s: Step, force: bool, answers: nat -> Answers, retry: nat, maxRetries: nat): (r: (Outcome, Pool, nat))
    requires Keyed(s.pool) && retry < maxRetries
    ensures Keyed(r.1)
    decreases maxRetries - retry, 0
  {
    match s.result
    case Ok((idx, response)) => (Served(idx, response, s.fileIds), s.pool, retry + 1)
    case Err(e) =>
      if retry == 0 && !s.picked then (Aborted, s.pool, 1)
      else Run(s.pool, force, s.fileIds, answers, retry + 1, maxRetries, Some(e))
  }

  /** The loop from attempt `retry` on makes between one attempt and the remaining ones,
      aborts only when the very first attempt has no account to pick, and otherwise ends
      with the error of its last attempt. */
  lemma {:induction false} RunEnds(p: Pool, force: bool, fileIds: seq<string>, answers: nat -> Answers,
                                   retry: nat, maxRetries: nat, last: Option<string>)
    requires Keyed(p)
    ensures var r := Run(p, force, fileIds, answers, retry, maxRetries, last);
      && (retry >= maxRetries ==> r == (AllFailed(last), p, retry))
      && (retry < maxRetries ==> retry < r.2 <= maxRetries)
      && (r.0.Aborted? ==> retry == 0 && retry < maxRetries && AvailableIndices(p) == [] && r.1 == p)
      && (r.0.AllFailed? && retry < maxRetries ==> r.0.lastError.Some? && r.2 == maxRetries)
    decreases maxRetries - retry
  {
    if retry < maxRetries {
      var s := Attempt(p, force, fileIds, answers(retry));
      AttemptPicks(p, force, fileIds, answers(retry));
      if s.result.Err? && !(retry == 0 && !s.picked) {
        RunEnds(s.pool, force, s.fileIds, answers, retry + 1, maxRetries, Some(s.result.msg));
      }
    }
  }

  /** The loop never re-enables an account, and disables none while every token
      exchange succeeds. */
  lemma {:induction false} RunAvailability(p: Pool, force: bool, fileIds: seq<string>, answers: nat -> Answers,
                                           retry: nat, maxRetries: nat, last: Option<string>)
    requires Keyed(p)
    ensures var r := Run(p, force, fileIds, answers, retry, maxRetries, last);
      && NoneRevived(p, r.1)
      && ((forall n: nat :: retry <= n < maxRetries ==> answers(n).exchange.Ok?) ==> r.1.accounts == p.accounts)
    decreases maxRetries - retry
  {
    if retry < maxRetries {
      var s := Attempt(p, force, fileIds, answers(retry));
      AttemptAvailability(p, force, fileIds, answers(retry));
      if s.result.Err? && !(retry == 0 && !s.picked) {
        RunAvailability(s.pool, force, s.fileIds, answers, retry + 1, maxRetries, Some(s.result.msg));
        var r := Run(s.pool, force, s.fileIds, answers, retry + 1, maxRetries, Some(s.result.msg));
        NoneRevivedTransitive(p, s.pool, r.1);
      }
    }
  }

  /** The loop serves only the chat answer of its last attempt, for file ids that extend
      the ones it started with, from an account index in range. */
  lemma {:induction false} RunServes(p: Pool, force: bool, fileIds: seq<string>, answers: nat -> Answers,
                                     retry: nat, maxRetries: nat, last: Option<string>)
    requires Keyed(p)
    ensures var r := Run(p, force, fileIds, answers, retry, maxRetries, last);
      r.0.Served? ==>
        && retry < r.2 && r.0.index < |p.accounts| && fileIds <= r.0.fileIds
        && answers(r.2 - 1).chat(r.0.fileIds) == Ok(r.0.response)
    decreases maxRetries - retry
  {
    if retry < maxRetries {
      var s := Attempt(p, force, fileIds, answers(retry));
      AttemptServes(p, force, fileIds, answers(retry));
      assert Run(p, force, fileIds, answers, retry, maxRetries, last) == Proceed(s, force, answers, retry, maxRetries);
      if s.result.Err? && !(retry == 0 && !s.picked) {
        RunServes(s.pool, force, s.fileIds, answers, retry + 1, maxRetries, Some(s.result.msg));
        var r := Run(s.pool, force, s.fileIds, answers, retry + 1, maxRetries, Some(s.result.msg));
        assert Proceed(s, force, answers, retry, maxRetries) == r;
        if r.0.Served? {
          PrefixTransitive(fileIds, s.fileIds, r.0.fileIds);
        }
      }
    }
  }

  /** The loop as the route runs it: `max_retries = len(accounts)`, no error yet. */
  function ChatWithRetry(p: Pool, force: bool, fileIds: seq<string>, answers: nat -> Answers): (r: (Outcome, Pool, nat))
    requires Keyed(p)
  {
    Run(p, force, fileIds, answers, 0, |p.accounts|, None)
  }

  /** At most one attempt per configured account; an empty list makes none and fails
      with no error; no account is ever re-enabled; and as long as every token exchange
      succeeds, no account loses its availability (a session or chat failure only moves
      on to the next attempt). */
  lemma ChatWithRetryBounds(p: Pool, force: bool, fileIds: seq<string>, answers: nat -> Answers)
    requires Keyed(p)
    ensures var (outcome, q, attempts) := ChatWithRetry(p, force, fileIds, answers);
      && attempts <= |p.accounts|
      && (|p.accounts| == 0 <==> attempts == 0)
      && (|p.accounts| == 0 ==> outcome == AllFailed(None) && q == p)
      && Keyed(q) && NoneRevived(p, q)
      && ((forall n: nat :: n < |p.accounts| ==> answers(n).exchange.Ok?) ==> q.accounts == p.accounts)
  {
    RunEnds(p, force, fileIds, answers, 0, |p.accounts|, None);
    RunAvailability(p, force, fileIds, answers, 0, |p.accounts|, None);
  }

  /** With accounts configured but none available, the first attempt's failure escapes
      the handler; with some available the first attempt always picks one. */
  lemma ChatWithRetryAborts(p: Pool, force: bool, fileIds: seq<string>, answers: nat -> Answers)
    requires Keyed(p)
    ensures var (outcome, q, _) := ChatWithRetry(p, force, fileIds, answers);
      outcome.Aborted? <==> |p.accounts| > 0 && AvailableIndices(p) == []
  {
    RunEnds(p, force, fileIds, answers, 0, |p.accounts|, None);
    AttemptPicks(p, force, fileIds, answers(0));
  }

  /** In the first attempt with an account to pick, a chat answer is what the route
      serves, sent with the resolved file ids followed by the uploaded ones. */
  lemma FirstAnswerServed(p: Pool, force: bool, fileIds: seq<string>, answers: nat -> Answers)
    requires Keyed(p) && |p.accounts| > 0
    requires Attempt(p, force, fileIds, answers(0)).result.Ok?
    ensures var s := Attempt(p, force, fileIds, answers(0));
      ChatWithRetry(p, force, fileIds, answers)
        == (Served(s.result.value.0, s.result.value.1, fileIds + Uploaded(answers(0).uploads)), s.pool, 1)
  {
    var s := Attempt(p, force, fileIds, answers(0));
    AttemptServes(p, force, fileIds, answers(0));
    assert ChatWithRetry(p, force, fileIds, answers) == Proceed(s, force, answers, 0, |p.accounts|);
  }

  /** An attempt whose picked account has a stale token and whose exchange fails ends
      with the exchange's error and leaves that account unavailable. */
  lemma AttemptDemotes(p: Pool, force: bool, fileIds: seq<string>, a: Answers)
    requires Keyed(p) && AvailableIndices(p) != []
    requires NeedsRefresh(p.states[NextAccount(p).0.value], a.now) && a.exchange.Err?
    ensures var s := Attempt(p, force, fileIds, a);
      var idx := NextAccount(p).0.value;
      && s.picked && s.result == Err(a.exchange.msg)
      && !s.pool.accounts[idx].available && !s.pool.states[idx].available
  {
    var (pick, p1) := NextAccount(p);
    EnsureJwtRefresh(p1, pick.value, a.now, a.exchange);
  }

  /** Every state's token needs a refresh at time `now`. */
  ghost predicate AllStale(p: Pool, now: nat)
  {
    forall i :: i in p.states ==> NeedsRefresh(p.states[i], now)
  }

  /** An account record marked available has an available state (one half of `Valid`). */
  ghost predicate AccountsFollowStates(p: Pool)
  {
    forall i :: 0 <= i < |p.accounts| && p.accounts[i].available ==> i in p.states && p.states[i].available
  }

  /** With every token stale and a failing exchange, an attempt fails. Without an account
      to pick it changes nothing; with one, that account is disabled, so the available
      list shrinks by one. Tokens and their times stay as they were. */
  lemma AttemptStaleFails(p: Pool, force: bool, fileIds: seq<string>, a: Answers)
    requires Keyed(p) && AllStale(p, a.now) && a.exchange.Err?
    ensures var s := Attempt(p, force, fileIds, a);
      && s.result.Err?
      && (!s.picked ==> s.pool == p && AvailableIndices(p) == [])
      && (s.picked ==> |AvailableIndices(s.pool)| + 1 == |AvailableIndices(p)|)
      && s.pool.states.Keys == p.states.Keys
      && (forall i :: i in p.states ==>
            s.pool.states[i].jwt == p.states[i].jwt && s.pool.states[i].jwtTime == p.states[i].jwtTime)
      && (AccountsFollowStates(p) ==> AccountsFollowStates(s.pool))
  {
    var (pick, p1) := NextAccount(p);
    if pick.Ok? {
      var idx := pick.value;
      var e := a.exchange.msg;
      EnsureJwtRefresh(p1, idx, a.now, a.exchange);
      assert EnsureSession(p1, idx, force, a.now, a.exchange, a.create) == (Err(e), MarkUnavailable(p1, idx, e, a.now));
      MarkCount(p1, idx, e, a.now);
    }
  }

  /** The loop from attempt `retry` on, while every token is stale and every exchange
      fails, never serves and leaves no account available, provided there are at least
      as many attempts left as available accounts. */
  lemma {:induction false} RunStaleExhausts(p: Pool, force: bool, fileIds: seq<string>, answers: nat -> Answers,
                                            retry: nat, maxRetries: nat, last: Option<string>)
    requires Keyed(p) && |AvailableIndices(p)| <= maxRetries - retry
    requires forall n: nat :: retry <= n < maxRetries ==> AllStale(p, answers(n).now) && answers(n).exchange.Err?
    ensures var r := Run(p, force, fileIds, answers, retry, maxRetries, last);
      && !r.0.Served? && AvailableIndices(r.1) == [] && |r.1.accounts| == |p.accounts|
      && (AccountsFollowStates(p) ==> AccountsFollowStates(r.1))
    decreases maxRetries - retry
  {
    if retry < maxRetries {
      var s := Attempt(p, force, fileIds, answers(retry));
      AttemptStaleFails(p, force, fileIds, answers(retry));
      assert Run(p, force, fileIds, answers, retry, maxRetries, last) == Proceed(s, force, answers, retry, maxRetries);
      if !(retry == 0 && !s.picked) {
        forall n: nat | retry + 1 <= n < maxRetries
          ensures AllStale(s.pool, answers(n).now) && answers(n).exchange.Err?
        {
          forall i | i in s.pool.states
            ensures NeedsRefresh(s.pool.states[i], answers(n).now)
          {
            assert NeedsRefresh(p.states[i], answers(n).now);
          }
        }
        RunStaleExhausts(s.pool, force, s.fileIds, answers, retry + 1, maxRetries, Some(s.result.msg));
      }
    }
  }

  /** An empty available list means no account below the count has an available state. */
  lemma NoneAvailable(q: Pool)
    requires AvailableIndices(q) == []
    ensures forall i: nat :: i < |q.accounts| ==> !StateAvailable(q.states, i)
  {
    AvailableBelowFacts(q.states, |q.accounts|);
    forall i: nat | i < |q.accounts|
      ensures !StateAvailable(q.states, i)
    {
      assert i !in AvailableIndices(q);
    }
  }

  /** In a valid pool the account records follow their states. */
  lemma ValidFollows(p: Pool)
    requires Valid(p)
    ensures AccountsFollowStates(p)
  {
  }

  /** When account records follow their states and no state is available, no account
      record is available. */
  lemma NoAccountAvailable(q: Pool)
    requires AccountsFollowStates(q) && AvailableIndices(q) == []
    ensures forall i :: 0 <= i < |q.accounts| ==> !q.accounts[i].available
  {
    NoneAvailable(q);
    forall i | 0 <= i < |q.accounts|
      ensures !q.accounts[i].available
    {
      assert !StateAvailable(q.states, i);
    }
  }

  /** With some account available, every token stale and every exchange failing, the
      loop makes every attempt, ends with the 500 of its last error and leaves no account
      available; on a valid pool no account record stays available either. */
  lemma ChatWithRetryAllExchangesFail(p: Pool, force: bool, fileIds: seq<string>, answers: nat -> Answers)
    requires Keyed(p) && AvailableIndices(p) != []
    requires forall n: nat :: n < |p.accounts| ==> AllStale(p, answers(n).now) && answers(n).exchange.Err?
    ensures var r := ChatWithRetry(p, force, fileIds, answers);
      && r.0.AllFailed? && r.0.lastError.Some? && r.2 == |p.accounts|
      && AvailableIndices(r.1) == []
      && (forall i: nat :: i < |r.1.accounts| ==> !StateAvailable(r.1.states, i))
      && (Valid(p) ==> forall i :: 0 <= i < |r.1.accounts| ==> !r.1.accounts[i].available)
  {
    var r := Run(p, force, fileIds, answers, 0, |p.accounts|, None);
    assert ChatWithRetry(p, force, fileIds, answers) == r;
    RunStaleExhausts(p, force, fileIds, answers, 0, |p.accounts|, None);
    RunEnds(p, force, fileIds, answers, 0, |p.accounts|, None);
    NoneAvailable(r.1);
    if Valid(p) {
      ValidFollows(p);
      NoAccountAvailable(r.1);
    }
  }

  /** The steps of the attempts the loop makes from attempt `retry` on. */
  function Trace(p: Pool, force: bool, fileIds: seq<string>, answers: nat -> Answers,
                 retry: nat, maxRetries: nat): seq<Step>
    requires Keyed(p)
    decreases maxRetries - retry
  {
    if retry >= maxRetries then []
    else
      var s := Attempt(p, force, fileIds, answers(retry));
      if s.result.Ok? || (retry == 0 && !s.picked) then [s]
      else [s] + Trace(s.pool, force, s.fileIds, answers, retry + 1, maxRetries)
  }

  /** Step `j + 1` of a trace is the attempt on the pool and file ids step `j` left. */
  ghost predicate Linked(t: seq<Step>, j: nat, force: bool, answers: nat -> Answers, retry: nat)
    requires j + 1 < |t|
  {
    Keyed(t[j].pool) && t[j + 1] == Attempt(t[j].pool, force, t[j].fileIds, answers(retry + j + 1))
  }

  /** Putting a failed attempt in front of a chained trace that starts with the attempt
      on the pool it left gives a chained trace. */
  lemma LinkedCons(s: Step, rest: seq<Step>, force: bool, answers: nat -> Answers, retry: nat)
    requires Keyed(s.pool) && s.result.Err? && |rest| > 0
    requires rest[0] == Attempt(s.pool, force, s.fileIds, answers(retry + 1))
    requires forall j: nat :: j + 1 < |rest| ==> Linked(rest, j, force, answers, retry + 1) && rest[j].result.Err?
    ensures forall j: nat :: j + 1 < |[s] + rest| ==> Linked([s] + rest, j, force, answers, retry) && ([s] + rest)[j].result.Err?
  {
    var t := [s] + rest;
    forall j: nat | j + 1 < |t|
      ensures Linked(t, j, force, answers, retry) && t[j].result.Err?
    {
      assert t[j + 1] == rest[j];
      if j > 0 {
        assert t[j] == rest[j - 1];
        assert Linked(rest, j - 1, force, answers, retry + 1);
      }
    }
  }

  /** The trace starts with the attempt on the given pool, chains each attempt to the one
      before, and every attempt but the last failed. */
  lemma {:induction false} TraceSteps(p: Pool, force: bool, fileIds: seq<string>,
                                      answers: nat -> Answers, retry: nat, maxRetries: nat)
    requires Keyed(p) && retry < maxRetries
    ensures var t := Trace(p, force, fileIds, answers, retry, maxRetries);
      && |t| > 0 && t[0] == Attempt(p, force, fileIds, answers(retry))
      && (forall j: nat :: j + 1 < |t| ==> Linked(t, j, force, answers, retry) && t[j].result.Err?)
    decreases maxRetries - retry
  {
    var s := Attempt(p, force, fileIds, answers(retry));
    if s.result.Err? && !(retry == 0 && !s.picked) && retry + 1 < maxRetries {
      var rest := Trace(s.pool, force, s.fileIds, answers, retry + 1, maxRetries);
      assert Trace(p, force, fileIds, answers, retry, maxRetries) == [s] + rest;
      TraceSteps(s.pool, force, s.fileIds, answers, retry + 1, maxRetries);
      LinkedCons(s, rest, force, answers, retry);
    }
  }

  /** The loop makes exactly the attempts of the trace, leaves the pool its last attempt
      left, and serves exactly when that attempt succeeded, with its account, answer and
      file ids. With `TraceSteps`: the loop stops at the first successful attempt. */
  lemma {:induction false} RunFollowsTrace(p: Pool, force: bool, fileIds: seq<string>,
                                           answers: nat -> Answers, retry: nat, maxRetries: nat,
                                           last: Option<string>)
    requires Keyed(p) && retry < maxRetries
    ensures var r := Run(p, force, fileIds, answers, retry, maxRetries, last);
      var t := Trace(p, force, fileIds, answers, retry, maxRetries);
      && |t| > 0 && r.2 == retry + |t| && r.1 == t[|t| - 1].pool
      && (r.0.Served? <==> t[|t| - 1].result.Ok?)
      && (r.0.Served? ==> t[|t| - 1].result.value == (r.0.index, r.0.response) && r.0.fileIds == t[|t| - 1].fileIds)
    decreases maxRetries - retry
  {
    var s := Attempt(p, force, fileIds, answers(retry));
    assert Run(p, force, fileIds, answers, retry, maxRetries, last) == Proceed(s, force, answers, retry, maxRetries);
    if s.result.Err? && !(retry == 0 && !s.picked) {
      var rest := Trace(s.pool, force, s.fileIds, answers, retry + 1, maxRetries);
      assert Trace(p, force, fileIds, answers, retry, maxRetries) == [s] + rest;
      var r := Run(s.pool, force, s.fileIds, answers, retry + 1, maxRetries, Some(s.result.msg));
      assert Proceed(s, force, answers, retry, maxRetries) == r;
      if retry + 1 < maxRetries {
        RunFollowsTrace(s.pool, force, s.fileIds, answers, retry + 1, maxRetries, Some(s.result.msg));
        assert ([s] + rest)[|rest|] == rest[|rest| - 1];
      } else {
        assert [s] + rest == [s];
      }
    } else {
      assert Trace(p, force, fileIds, answers, retry, maxRetries) == [s];
    }
  }

  /** The route's loop stops at its first successful attempt: it makes the attempts of
      the trace, each on the pool the one before left, all but the last failed, and it
      serves exactly when the last succeeded, with that attempt's account and answer. */
  lemma ChatWithRetryStopsAtFirstSuccess(p: Pool, force: bool, fileIds: seq<string>, answers: nat -> Answers)
    requires Keyed(p) && |p.accounts| > 0
    ensures var r := ChatWithRetry(p, force, fileIds, answers);
      var t := Trace(p, force, fileIds, answers, 0, |p.accounts|);
      && |t| > 0 && r.2 == |t| && t[0] == Attempt(p, force, fileIds, answers(0))
      && (forall j: nat :: j + 1 < |t| ==> Linked(t, j, force, answers, 0) && t[j].result.Err?)
      && (r.0.Served? <==> t[|t| - 1].result.Ok?)
      && (r.0.Served? ==> t[|t| - 1].result.value == (r.0.index, r.0.response))
  {
    TraceSteps(p, force, fileIds, answers, 0, |p.accounts|);
    RunFollowsTrace(p, force, fileIds, answers, 0, |p.accounts|, None);
  }

  /** The loop body over the mutable pool, uploading images one by one. */
  method AttemptOnce(pool: AccountPool.AccountManager, force: bool, fileIds: seq<string>, a: Answers)
    returns (s: Step)
    requires pool.Valid()
    modifies pool
    ensures pool.Valid()
    ensures s == Attempt(old(pool.Model()), force, fileIds, a) && s.pool == pool.Model()
  {
    ghost var p := pool.Model();
    var next := pool.GetNextAccount();
    if next.Err? {
      return Step(Err(next.msg), pool.Model(), fileIds, false);
    }
    var (idx, account) := next.value;
    var session := pool.EnsureSession(idx, force, a.now, a.exchange, a.create);
    if session.Err? {
      return Step(Err(session.msg), pool.Model(), fileIds, true);
    }
    var ids := fileIds;
    var k := 0;
    while k < |a.uploads|
      invariant 0 <= k <= |a.uploads|
      invariant ids == fileIds + Uploaded(a.uploads[..k])
    {
      assert a.uploads[..k + 1][..k] == a.uploads[..k];
      var uploaded := a.uploads[k];
      if uploaded.Some? && uploaded.value != "" {
        ids := ids + [uploaded.value];
      }
      k := k + 1;
    }
    assert a.uploads[..k] == a.uploads;
    var reply := a.chat(ids);
    match reply
    case Ok(response) =>
      s := Step(Ok((idx, response)), pool.Model(), ids, true);
    case Err(e) =>
      s := Step(Err(e), pool.Model(), ids, true);
  }

  /** The retry loop over the mutable pool. */
  method ChatWithRetryOnPool(pool: AccountPool.AccountManager, force: bool, fileIds: seq<string>,
                             answers: nat -> Answers) returns (outcome: Outcome)
    requires pool.Valid()
    modifies pool
    ensures pool.Valid()
    ensures var r := ChatWithRetry(old(pool.Model()), force, fileIds, answers);
      outcome == r.0 && pool.Model() == r.1
  {
    var maxRetries := |pool.accounts|;
    var lastError: Option<string> := None;
    var ids := fileIds;
    var retry := 0;
    while retry < maxRetries
      invariant 0 <= retry <= maxRetries && pool.Valid()
      invariant Run(pool.Model(), force, ids, answers, retry, maxRetries, lastError)
             == ChatWithRetry(old(pool.Model()), force, fileIds, answers)
      decreases maxRetries - retry
    {
      var s := AttemptOnce(pool, force, ids, answers(retry));
      match s.result
      case Ok((idx, response)) =>
        return Served(idx, response, s.fileIds);
      case Err(e) =>
        if retry == 0 && !s.picked {
          return Aborted;
        }
        lastError := Some(e);
        ids := s.fileIds;
        retry := retry + 1;
    }
    outcome := AllFailed(lastError);
  }
}
