/**
 * capi/__init__.py: `CAPIAuthorizer`, the flows that drive the token table
 * around the identity provider's answers. Each flow is a pure function giving
 * the result (or exception) together with the table afterwards, and a method
 * of `CAPIAuthorizer` that performs the same steps on the `Model` object and
 * is proved to agree with it.
 */
module Authorizer {
  import opened Wrappers
  import opened Exceptions
  import opened Provider
  import opened Sql
  import opened Challenge
  import opened Store

  /** The `msg` dict of the capi flows. */
  datatype Msg = Msg(status: string, description: string, state: string)

  /** The dict `get_token_by_state` returns: the selected row plus `expires_over`. */
  datatype TokenReport = TokenReport(access: Option<string>, expiresOn: int, nickname: Option<string>, expiresOver: int)

  /** The constants of config.py the authorization URL is built from. */
  datatype AuthConfig = AuthConfig(authUrl: string, clientId: string, redirectUrl: string)

  /** A token is refreshed this many seconds before the provider says it expires. */
  const RefreshMargin: int := 400

  /** With `failure_tolerance` off, a failure seen with this many earlier failures removes the row. */
  const RefreshTriesLimit: nat := 5

  const NoSuchState := "No such state in DB"
  const NotRequired := "Didn't refresh since it isn't required"
  const Refreshed := "Token were successfully updated"
  const ConnectionLost := "Connection Error"
  const RemovedForTries := "Refresh failed. You were removed from DB due to refresh rate limitings"
  const TryLater := "Refresh failed. Try later"

  /**
   * `raise_for_status()`, `.json()` and the three key lookups of a token
   * response: the tokens, or the exception the first failing step raises.
   */
  function ReadTokens(resp: HttpResult): (r: Result<Tokens, Exc>)
    ensures r.Success? <==> resp.Response? && !IsHttpError(resp.status) && resp.body.TokenJson?
    ensures r.Success? ==> r.value == resp.body.tokens
    ensures r == Failure(ConnectionError) <==> resp.ConnectionFailed?
    ensures resp.Response? && IsHttpError(resp.status) ==> r == Failure(HttpError(resp.status))
  {
    match resp
    case ConnectionFailed => Failure(ConnectionError)
    case RequestFailed => Failure(RequestError)
    case Response(status, body) =>
      if IsHttpError(status) then Failure(HttpError(status))
      else match body
        case NotJson => Failure(JsonDecodeError)
        case MissingKey(k) => Failure(KeyError(k))
        case TokenJson(t) => Success(t)
  }

  /**
   * The `try` block of `refresh_by_state`. On status 418 it reads the absent
   * key 'message' of `msg`, so it raises KeyError itself.
   */
  function RefreshAttempt(resp: HttpResult): Result<Tokens, Exc> {
    if resp.Response? && resp.status == 418 then Failure(KeyError("message")) else ReadTokens(resp)
  }

  /** The responses that end in the generic `except Exception` handler of `refresh_by_state`. */
  predicate IsGenericFailure(resp: HttpResult) {
    RefreshAttempt(resp).Failure? && !resp.ConnectionFailed?
  }

  /** The token of `row` is still fresh: it expires more than the margin after `now`. */
  predicate IsFresh(row: Row, now: int)
    requires row.ts.Some? && row.expiresIn.Some?
  {
    now < row.ts.value + row.expiresIn.value - RefreshMargin
  }

  /**
   * `refresh_by_state(state, force_refresh, failure_tolerance)` with the
   * clock reading `now` and the provider's answer `resp`. The row consulted is
   * the first with that state, read once before any change; `refresh_tries`
   * is compared as it was in that read.
   */
  function RefreshOutcome(rows: seq<Row>, state: string, force: bool, tolerant: bool, now: int, resp: HttpResult): (e: Effect<Msg>)
    ensures NoneMatch(rows, Some(state)) ==> e == Effect(Failure(RefreshFail(NoSuchState, "error", state)), rows)
    ensures e.result.Success? ==> e.result.value.status == "ok" && e.result.value.state == state
    ensures e.result.Failure? ==>
      e.result.error == TypeError || (e.result.error.RefreshFail? && e.result.error.status == "error" && e.result.error.state == state)
  {
    match SelectAllByState(rows, Some(state))
    case None => Effect(Failure(RefreshFail(NoSuchState, "error", state)), rows)
    case Some(row) =>
      if row.ts.None? || row.expiresIn.None? then Effect(Failure(TypeError), rows)
      else if IsFresh(row, now) && !force then Effect(Success(Msg("ok", NotRequired, state)), rows)
      else match RefreshAttempt(resp)
        case Success(t) => Effect(Success(Msg("ok", Refreshed, state)), SetTokensByState(rows, t, now, Some(state)))
        case Failure(err) =>
          if err == ConnectionError then Effect(Failure(RefreshFail(ConnectionLost, "error", state)), rows)
          else
            var counted := RefreshTimesIncrement(rows, Some(state));
            if !tolerant && row.refreshTries >= RefreshTriesLimit then
              Effect(Failure(RefreshFail(RemovedForTries, "error", state)), DeleteByState(counted, Some(state)))
            else Effect(Failure(RefreshFail(TryLater, "error", state)), counted)
  }

  /** The branch of `refresh_by_state` taken when the provider returned tokens. */
  lemma RefreshedPath(rows: seq<Row>, state: string, force: bool, tolerant: bool, now: int, resp: HttpResult, row: Row, t: Tokens)
    requires SelectAllByState(rows, Some(state)) == Some(row)
    requires row.ts.Some? && row.expiresIn.Some? && (force || !IsFresh(row, now))
    requires RefreshAttempt(resp) == Success(t)
    ensures RefreshOutcome(rows, state, force, tolerant, now, resp)
      == Effect(Success(Msg("ok", Refreshed, state)), SetTokensByState(rows, t, now, Some(state)))
  {
  }

  /** The branch of `refresh_by_state` taken by the generic exception handler. */
  lemma FailedPath(rows: seq<Row>, state: string, force: bool, tolerant: bool, now: int, resp: HttpResult, row: Row)
    requires SelectAllByState(rows, Some(state)) == Some(row)
    requires row.ts.Some? && row.expiresIn.Some? && (force || !IsFresh(row, now))
    requires IsGenericFailure(resp)
    ensures RefreshOutcome(rows, state, force, tolerant, now, resp)
      == if !tolerant && row.refreshTries >= RefreshTriesLimit then
           Effect(Failure(RefreshFail(RemovedForTries, "error", state)), DeleteByState(RefreshTimesIncrement(rows, Some(state)), Some(state)))
         else Effect(Failure(RefreshFail(TryLater, "error", state)), RefreshTimesIncrement(rows, Some(state)))
  {
    assert RefreshAttempt(resp).error != ConnectionError;
  }

  /**
   * The freshness check: for a row with both timestamps set, the call answers
   * "not required" and leaves the table alone exactly when the token is fresh
   * and the refresh is not forced.
   */
  lemma FreshTokenIsNotRefreshed(rows: seq<Row>, state: string, force: bool, tolerant: bool, now: int, resp: HttpResult)
    requires !NoneMatch(rows, Some(state))
    requires var row := rows[FirstMatch(rows, Some(state))]; row.ts.Some? && row.expiresIn.Some?
    ensures var e := RefreshOutcome(rows, state, force, tolerant, now, resp);
      var row := rows[FirstMatch(rows, Some(state))];
      (e.result == Success(Msg("ok", NotRequired, state)) <==> IsFresh(row, now) && !force)
      && (IsFresh(row, now) && !force ==> e.rows == rows)
  {
  }

  /** With the token obtained at T and a lifetime of 1000 s, T+599 is still fresh and T+600 is not. */
  lemma FreshnessBoundary(rows: seq<Row>, state: string, tolerant: bool, resp: HttpResult, t: int)
    requires !NoneMatch(rows, Some(state))
    requires var row := rows[FirstMatch(rows, Some(state))]; row.ts == Some(t) && row.expiresIn == Some(1000)
    ensures RefreshOutcome(rows, state, false, tolerant, t + 599, resp) == Effect(Success(Msg("ok", NotRequired, state)), rows)
    ensures RefreshOutcome(rows, state, false, tolerant, t + 600, resp).result != Success(Msg("ok", NotRequired, state))
  {
    FreshTokenIsNotRefreshed(rows, state, false, tolerant, t + 599, resp);
    FreshTokenIsNotRefreshed(rows, state, false, tolerant, t + 600, resp);
  }

  /**
   * A refresh that reaches the provider and gets tokens back stores them with
   * the time `now`, resets `refresh_tries` to 0 and touches no other row.
   */
  lemma SuccessfulRefreshResetsTries(rows: seq<Row>, state: string, force: bool, tolerant: bool, now: int, resp: HttpResult, t: Tokens)
    requires !NoneMatch(rows, Some(state))
    requires var row := rows[FirstMatch(rows, Some(state))];
      row.ts.Some? && row.expiresIn.Some? && (force || !IsFresh(row, now))
    requires RefreshAttempt(resp) == Success(t)
    ensures var e := RefreshOutcome(rows, state, force, tolerant, now, resp);
      && e.result == Success(Msg("ok", Refreshed, state))
      && OnlyMatchingChanged(rows, e.rows, Some(state))
      && forall i | 0 <= i < |rows| && Matches(rows[i], Some(state)) ::
           e.rows[i].access == Some(t.access) && e.rows[i].refresh == Some(t.refresh)
           && e.rows[i].expiresIn == Some(t.expiresIn) && e.rows[i].ts == Some(now) && e.rows[i].refreshTries == 0
  {
    var row := rows[FirstMatch(rows, Some(state))];
    assert SelectAllByState(rows, Some(state)) == Some(row);
    RefreshedPath(rows, state, force, tolerant, now, resp, row, t);
  }

  /** A connection error leaves the table, `refresh_tries` included, as it was. */
  lemma ConnectionErrorKeepsRow(rows: seq<Row>, state: string, force: bool, tolerant: bool, now: int)
    requires !NoneMatch(rows, Some(state))
    requires var row := rows[FirstMatch(rows, Some(state))];
      row.ts.Some? && row.expiresIn.Some? && (force || !IsFresh(row, now))
    ensures RefreshOutcome(rows, state, force, tolerant, now, ConnectionFailed)
      == Effect(Failure(RefreshFail(ConnectionLost, "error", state)), rows)
  {
  }

  /** A 418 (maintenance) answer has exactly the effect of any other failed request. */
  lemma MaintenanceIsOrdinaryFailure(rows: seq<Row>, state: string, force: bool, tolerant: bool, now: int, body: Body)
    ensures RefreshOutcome(rows, state, force, tolerant, now, Response(418, body))
      == RefreshOutcome(rows, state, force, tolerant, now, RequestFailed)
  {
  }

  /**
   * The generic failure: one more try is counted on the matching rows, and the
   * rows are removed instead only when failures are not tolerated and the row
   * had already failed `RefreshTriesLimit` times before this call.
   */
  lemma GenericFailureCountsOrRemoves(rows: seq<Row>, state: string, force: bool, tolerant: bool, now: int, resp: HttpResult)
    requires !NoneMatch(rows, Some(state))
    requires var row := rows[FirstMatch(rows, Some(state))];
      row.ts.Some? && row.expiresIn.Some? && (force || !IsFresh(row, now))
    requires IsGenericFailure(resp)
    ensures var e := RefreshOutcome(rows, state, force, tolerant, now, resp);
      var row := rows[FirstMatch(rows, Some(state))];
      if !tolerant && row.refreshTries >= RefreshTriesLimit then
        e == Effect(Failure(RefreshFail(RemovedForTries, "error", state)), DeleteByState(rows, Some(state)))
      else
        e == Effect(Failure(RefreshFail(TryLater, "error", state)), RefreshTimesIncrement(rows, Some(state)))
  {
    var row := rows[FirstMatch(rows, Some(state))];
    assert SelectAllByState(rows, Some(state)) == Some(row);
    FailedPath(rows, state, force, tolerant, now, resp, row);
    if !tolerant && row.refreshTries >= RefreshTriesLimit {
      var counted := RefreshTimesIncrement(rows, Some(state));
      DeleteOfSameOthers(counted, rows, Some(state));
    }
  }

  /** The table after n failed refreshes of `state` in a row, with failures not tolerated. */
  function FailedRefreshes(rows: seq<Row>, state: string, force: bool, now: int, n: nat): seq<Row> {
    if n == 0 then rows
    else RefreshOutcome(FailedRefreshes(rows, state, force, now, n - 1), state, force, false, now, RequestFailed).rows
  }

  /** Adds k tries to each row keyed `key`. */
  predicate TriesAdded(rows: seq<Row>, r: seq<Row>, key: Option<string>, k: nat) {
    |r| == |rows| &&
    forall i | 0 <= i < |rows| :: r[i] == if Matches(rows[i], key) then rows[i].(refreshTries := rows[i].refreshTries + k) else rows[i]
  }

  /** The row to refresh exists, has never failed, and is due (or the refresh is forced). */
  predicate DueWithoutFailures(rows: seq<Row>, state: string, force: bool, now: int) {
    var k := FirstMatch(rows, Some(state));
    && k < |rows|
    && rows[k].refreshTries == 0
    && rows[k].ts.Some? && rows[k].expiresIn.Some?
    && (force || !IsFresh(rows[k], now))
  }

  /** A table with k tries added to the rows of `key` keeps every row's state. */
  lemma TriesAddedSameStates(rows: seq<Row>, r: seq<Row>, key: Option<string>, k: nat)
    requires TriesAdded(rows, r, key, k)
    ensures SameStates(rows, r)
  {
    assert forall i | 0 <= i < |rows| :: r[i].state == rows[i].state;
  }

  /** One more failure, while fewer than `RefreshTriesLimit` were counted, adds one more try. */
  lemma FailureStep(rows: seq<Row>, prev: seq<Row>, state: string, force: bool, now: int, n: nat)
    requires DueWithoutFailures(rows, state, force, now)
    requires 0 < n <= RefreshTriesLimit
    requires TriesAdded(rows, prev, Some(state), n - 1)
    ensures TriesAdded(rows, RefreshOutcome(prev, state, force, false, now, RequestFailed).rows, Some(state), n)
  {
    var k := FirstMatch(rows, Some(state));
    TriesAddedSameStates(rows, prev, Some(state), n - 1);
    FirstMatchOfSameStates(rows, prev, Some(state));
    var row := prev[k];
    assert SelectAllByState(prev, Some(state)) == Some(row);
    FailedPath(prev, state, force, false, now, RequestFailed, row);
  }

  /** The first five consecutive failures only count: after n <= 5 of them each row of the state has n more tries. */
  lemma {:induction false} FailureBudget(rows: seq<Row>, state: string, force: bool, now: int, n: nat)
    requires DueWithoutFailures(rows, state, force, now)
    requires n <= RefreshTriesLimit
    ensures TriesAdded(rows, FailedRefreshes(rows, state, force, now, n), Some(state), n)
  {
    if n > 0 {
      FailureBudget(rows, state, force, now, n - 1);
      FailureStep(rows, FailedRefreshes(rows, state, force, now, n - 1), state, force, now, n);
    }
  }

  /** A failure once `RefreshTriesLimit` tries were counted deletes the rows of the state as they were at the start. */
  lemma FinalFailure(rows: seq<Row>, prev: seq<Row>, state: string, force: bool, now: int)
    requires DueWithoutFailures(rows, state, force, now)
    requires TriesAdded(rows, prev, Some(state), RefreshTriesLimit)
    ensures RefreshOutcome(prev, state, force, false, now, RequestFailed).rows == DeleteByState(rows, Some(state))
  {
    var k := FirstMatch(rows, Some(state));
    TriesAddedSameStates(rows, prev, Some(state), RefreshTriesLimit);
    FirstMatchOfSameStates(rows, prev, Some(state));
    var row := prev[k];
    assert SelectAllByState(prev, Some(state)) == Some(row);
    FailedPath(prev, state, force, false, now, RequestFailed, row);
    DeleteOfSameOthers(RefreshTimesIncrement(prev, Some(state)), rows, Some(state));
  }

  /** Starting from no failures, the sixth consecutive failure removes every row of the state. */
  lemma SixthFailureRemovesRow(rows: seq<Row>, state: string, force: bool, now: int)
    requires DueWithoutFailures(rows, state, force, now)
    ensures FailedRefreshes(rows, state, force, now, RefreshTriesLimit + 1) == DeleteByState(rows, Some(state))
    ensures NoneMatch(FailedRefreshes(rows, state, force, now, RefreshTriesLimit + 1), Some(state))
  {
    FailureBudget(rows, state, force, now, RefreshTriesLimit);
    FinalFailure(rows, FailedRefreshes(rows, state, force, now, RefreshTriesLimit), state, force, now);
    DeleteLeavesNone(rows, Some(state));
  }

  /**
   * A second, unforced refresh within the margin of a successful one answers
   * "not required" without calling the provider and leaves the table as the
   * first refresh left it.
   */
  lemma RefreshTwiceWithinMargin(rows: seq<Row>, state: string, force: bool, tolerant: bool, now: int, resp: HttpResult,
                                 t: Tokens, tolerant2: bool, now2: int, resp2: HttpResult)
    requires RefreshOutcome(rows, state, force, tolerant, now, resp).result == Success(Msg("ok", Refreshed, state))
    requires RefreshAttempt(resp) == Success(t)
    requires now2 < now + t.expiresIn - RefreshMargin
    ensures var after := RefreshOutcome(rows, state, force, tolerant, now, resp).rows;
      RefreshOutcome(after, state, false, tolerant2, now2, resp2) == Effect(Success(Msg("ok", NotRequired, state)), after)
  {
    var row := SelectAllByState(rows, Some(state)).value;
    var k := FirstMatch(rows, Some(state));
    RefreshedPath(rows, state, force, tolerant, now, resp, row, t);
    var after := SetTokensByState(rows, t, now, Some(state));
    FirstMatchOfSameStates(rows, after, Some(state));
    assert after[k].ts == Some(now) && after[k].expiresIn == Some(t.expiresIn);
    assert SelectAllByState(after, Some(state)) == Some(after[k]);
  }

  /**
   * `get_token_by_state(state)`: a refresh with the defaults (not forced,
   * failures tolerated), then the token view of the row with `expires_over`.
   */
  function GetTokenOutcome(rows: seq<Row>, state: string, now: int, resp: HttpResult): (e: Effect<Option<TokenReport>>)
    ensures e.rows == RefreshOutcome(rows, state, false, true, now, resp).rows
    ensures e.result.Success? && e.result.value.Some? ==> e.result.value.value.expiresOver == e.result.value.value.expiresOn - now
  {
    ReportAfterRefresh(RefreshOutcome(rows, state, false, true, now, resp), state, now)
  }

  /** What `get_token_by_state` makes of the refresh's outcome `refreshed`. */
  function ReportAfterRefresh(refreshed: Effect<Msg>, state: string, now: int): (e: Effect<Option<TokenReport>>)
    ensures e.rows == refreshed.rows
    ensures e.result.Success? && e.result.value.Some? ==> e.result.value.value.expiresOver == e.result.value.value.expiresOn - now
  {
    if refreshed.result.Failure? then
      if IsCAPIException(refreshed.result.error) then Effect(Success(None), refreshed.rows)
      else Effect(Failure(refreshed.result.error), refreshed.rows)
    else match Sql.GetTokenForUser(refreshed.rows, Some(state))
      case None => Effect(Success(None), refreshed.rows)
      case Some(v) =>
        if v.expiresOn.None? then Effect(Failure(TypeError), refreshed.rows)
        else Effect(Success(Some(TokenReport(v.access, v.expiresOn.value, v.nickname, v.expiresOn.value - now))), refreshed.rows)
  }

  /** Every `RefreshFail` of the refresh becomes a None answer; the table keeps what the refresh did. */
  lemma GetTokenSwallowsRefreshFail(rows: seq<Row>, state: string, now: int, resp: HttpResult)
    requires RefreshOutcome(rows, state, false, true, now, resp).result.Failure?
    ensures var e := GetTokenOutcome(rows, state, now, resp);
      var err := RefreshOutcome(rows, state, false, true, now, resp).result.error;
      e.result == if err.RefreshFail? then Success(None) else Failure(err)
  {
  }

  /**
   * A refresh that answers "ok" keeps the states of all rows, and the row it
   * consulted then has both timestamps set.
   */
  lemma RefreshSuccessKeepsRow(rows: seq<Row>, state: string, force: bool, tolerant: bool, now: int, resp: HttpResult)
    requires RefreshOutcome(rows, state, force, tolerant, now, resp).result.Success?
    ensures var after := RefreshOutcome(rows, state, force, tolerant, now, resp).rows;
      var k := FirstMatch(rows, Some(state));
      && SameStates(rows, after) && k < |after| && FirstMatch(after, Some(state)) == k
      && after[k].ts.Some? && after[k].expiresIn.Some?
  {
    var after := RefreshOutcome(rows, state, force, tolerant, now, resp).rows;
    var k := FirstMatch(rows, Some(state));
    assert k < |rows|;
    var row := rows[k];
    assert SelectAllByState(rows, Some(state)) == Some(row);
    assert row.ts.Some? && row.expiresIn.Some?;
    if IsFresh(row, now) && !force {
      assert after == rows;
    } else {
      var t := RefreshAttempt(resp).value;
      assert after == SetTokensByState(rows, t, now, Some(state));
      assert SameStates(rows, after);
    }
    FirstMatchOfSameStates(rows, after, Some(state));
  }

  /**
   * When the refresh succeeds, the answer is the refreshed row's token with
   * `expires_on = ts + expires_in` and `expires_over = expires_on - now`.
   */
  lemma GetTokenReportsExpiry(rows: seq<Row>, state: string, now: int, resp: HttpResult)
    requires RefreshOutcome(rows, state, false, true, now, resp).result.Success?
    ensures var e := GetTokenOutcome(rows, state, now, resp);
      var after := e.rows;
      var k := FirstMatch(after, Some(state));
      && k < |after| && after[k].ts.Some? && after[k].expiresIn.Some?
      && e.result == Success(Some(TokenReport(after[k].access, after[k].ts.value + after[k].expiresIn.value,
                                              after[k].nickname, after[k].ts.value + after[k].expiresIn.value - now)))
  {
    RefreshSuccessKeepsRow(rows, state, false, true, now, resp);
    ReportOfRow(RefreshOutcome(rows, state, false, true, now, resp), state, now);
  }

  /** After a successful refresh, the report is built from the first row of the state, whose timestamps are set. */
  lemma ReportOfRow(refreshed: Effect<Msg>, state: string, now: int)
    requires refreshed.result.Success?
    requires var k := FirstMatch(refreshed.rows, Some(state));
      k < |refreshed.rows| && refreshed.rows[k].ts.Some? && refreshed.rows[k].expiresIn.Some?
    ensures var row := refreshed.rows[FirstMatch(refreshed.rows, Some(state))];
      ReportAfterRefresh(refreshed, state, now).result
        == Success(Some(TokenReport(row.access, row.ts.value + row.expiresIn.value, row.nickname, row.ts.value + row.expiresIn.value - now)))
  {
    var row := refreshed.rows[FirstMatch(refreshed.rows, Some(state))];
    assert Sql.GetTokenForUser(refreshed.rows, Some(state))
      == Some(TokenView(row.access, Some(row.ts.value + row.expiresIn.value), row.nickname));
  }

  /**
   * `fdev_callback(code, state)`. A None argument stands for one that is not a
   * string. `resp` is the token endpoint's answer, `nickname` and `fid` what
   * `get_nickname` and `get_fid` return, `fidFresh` and `fidState` what
   * `set_fid` and `get_state_by_fid` return.
   */
  function CallbackOutcome(rows: seq<Row>, code: Option<string>, state: Option<string>, now: int, resp: HttpResult,
                           nickname: Option<string>, fid: Option<string>, fidFresh: bool, fidState: string): (e: Effect<Msg>)
    ensures e.result.Success? ==> fid.Some? && e.result.value.status == "ok" && e.result.value.state == fidState
  {
    if code.None? || state.None? then Effect(Failure(TypeError), rows)
    else if NoneMatch(rows, state) then Effect(Failure(KeyError("No state in DB found")), rows)
    else
      var coded := SetCodeState(rows, code.value, state);
      match ReadTokens(resp)
      case Failure(err) => Effect(Failure(err), coded)
      case Success(t) => FinishCallback(SetTokensByState(coded, t, now, state), nickname, state.value, fid, fidFresh, fidState)
  }

  /** The part of `fdev_callback` after the tokens are stored: nickname, FID, message. */
  function FinishCallback(stored: seq<Row>, nickname: Option<string>, state: string,
                          fid: Option<string>, fidFresh: bool, fidState: string): (e: Effect<Msg>)
    ensures e.rows == SetNicknameOutcome(stored, nickname, state).rows
    ensures e.result.Success? ==> fid.Some? && e.result.value.status == "ok" && e.result.value.state == fidState
    ensures SetNicknameOutcome(stored, nickname, state).result.Success? && fid.None? ==> e.result == Failure(NoFID(state))
  {
    var named := SetNicknameOutcome(stored, nickname, state);
    if named.result.Failure? then Effect(Failure(named.result.error), named.rows)
    else if fid.None? then Effect(Failure(NoFID(state)), named.rows)
    else Effect(Success(Msg("ok", if fidFresh then "Tokens saved" else "Tokens updated", fidState)), named.rows)
  }

  /** Arguments that are not strings, or a state never issued, are refused before the table changes. */
  lemma CallbackRefusesUnknownState(rows: seq<Row>, code: Option<string>, state: Option<string>, now: int, resp: HttpResult,
                                    nickname: Option<string>, fid: Option<string>, fidFresh: bool, fidState: string)
    ensures var e := CallbackOutcome(rows, code, state, now, resp, nickname, fid, fidFresh, fidState);
      && (code.None? || state.None? ==> e == Effect(Failure(TypeError), rows))
      && (code.Some? && state.Some? && NoneMatch(rows, state) ==> e == Effect(Failure(KeyError("No state in DB found")), rows))
  {
  }

  /**
   * A failed code exchange re-raises its exception and deletes nothing: the
   * row stays, with the code stored.
   */
  lemma CallbackExchangeFailureKeepsRow(rows: seq<Row>, code: string, state: string, now: int, resp: HttpResult,
                                        nickname: Option<string>, fid: Option<string>, fidFresh: bool, fidState: string)
    requires !NoneMatch(rows, Some(state))
    requires ReadTokens(resp).Failure?
    ensures var e := CallbackOutcome(rows, Some(code), Some(state), now, resp, nickname, fid, fidFresh, fidState);
      && e.result == Failure(ReadTokens(resp).error)
      && OnlyMatchingChanged(rows, e.rows, Some(state))
      && (forall i | 0 <= i < |rows| && Matches(rows[i], Some(state)) :: e.rows[i] == rows[i].(code := Some(code)))
      && !NoneMatch(e.rows, Some(state))
  {
    var e := CallbackOutcome(rows, Some(code), Some(state), now, resp, nickname, fid, fidFresh, fidState);
    var k := FirstMatch(rows, Some(state));
    assert Matches(e.rows[k], Some(state));
  }

  /** With distinct states, a nickname no row holds can be given to the rows of any one state. */
  lemma FreeNicknameDoesNotConflict(rows: seq<Row>, nickname: string, key: Option<string>)
    requires StatesDistinct(rows)
    requires forall i | 0 <= i < |rows| :: rows[i].nickname != Some(nickname)
    ensures !Conflicts(rows, nickname, key)
  {
    forall i, j | 0 <= i < j < |rows|
      ensures !(HoldsAfter(rows[i], nickname, key) && HoldsAfter(rows[j], nickname, key))
    {
      assert rows[i].state.Some? ==> rows[i].state != rows[j].state;
    }
  }

  /** The branch of `fdev_callback` taken when the code exchange returned tokens. */
  lemma CallbackTokensPath(rows: seq<Row>, code: string, state: string, now: int, resp: HttpResult, t: Tokens,
                           nickname: Option<string>, fid: Option<string>, fidFresh: bool, fidState: string)
    requires !NoneMatch(rows, Some(state))
    requires ReadTokens(resp) == Success(t)
    ensures CallbackOutcome(rows, Some(code), Some(state), now, resp, nickname, fid, fidFresh, fidState)
      == FinishCallback(SetTokensByState(SetCodeState(rows, code, Some(state)), t, now, Some(state)), nickname, state, fid, fidFresh, fidState)
  {
  }

  /** The table once `set_code_state` and `set_tokens_by_state` both ran. */
  lemma StoredRows(rows: seq<Row>, code: string, state: string, now: int, t: Tokens)
    ensures var stored := SetTokensByState(SetCodeState(rows, code, Some(state)), t, now, Some(state));
      && SameStates(rows, stored) && SameNicknames(rows, stored)
      && (forall i | 0 <= i < |rows| && !Matches(rows[i], Some(state)) :: stored[i] == rows[i])
      && (forall i | 0 <= i < |rows| && Matches(rows[i], Some(state)) ::
            stored[i] == rows[i].(code := Some(code), access := Some(t.access), refresh := Some(t.refresh),
                                  expiresIn := Some(t.expiresIn), ts := Some(now), refreshTries := 0))
  {
    var coded := SetCodeState(rows, code, Some(state));
    forall i | 0 <= i < |rows| ensures Matches(coded[i], Some(state)) == Matches(rows[i], Some(state)) {
    }
  }

  /** A known state and a token response: the callback goes on with the code and the tokens stored. */
  lemma CallbackStoresTokens(rows: seq<Row>, code: string, state: string, now: int, resp: HttpResult,
                             nickname: Option<string>, fid: Option<string>, fidFresh: bool, fidState: string)
    requires !NoneMatch(rows, Some(state))
    requires ReadTokens(resp).Success?
    ensures var t := ReadTokens(resp).value;
      var stored := SetTokensByState(SetCodeState(rows, code, Some(state)), t, now, Some(state));
      && CallbackOutcome(rows, Some(code), Some(state), now, resp, nickname, fid, fidFresh, fidState)
         == FinishCallback(stored, nickname, state, fid, fidFresh, fidState)
      && SameStates(rows, stored)
      && (forall i | 0 <= i < |rows| :: stored[i].nickname == rows[i].nickname)
      && (forall i | 0 <= i < |rows| && !Matches(rows[i], Some(state)) :: stored[i] == rows[i])
      && (forall i | 0 <= i < |rows| && Matches(rows[i], Some(state)) ::
            stored[i] == rows[i].(code := Some(code), access := Some(t.access), refresh := Some(t.refresh),
                                  expiresIn := Some(t.expiresIn), ts := Some(now), refreshTries := 0))
  {
    CallbackTokensPath(rows, code, state, now, resp, ReadTokens(resp).value, nickname, fid, fidFresh, fidState);
    StoredRows(rows, code, state, now, ReadTokens(resp).value);
  }

  /** The callback keeps non-NULL nicknames pairwise distinct. */
  lemma CallbackKeepsUnique(rows: seq<Row>, code: Option<string>, state: Option<string>, now: int, resp: HttpResult,
                            nickname: Option<string>, fid: Option<string>, fidFresh: bool, fidState: string)
    requires NicknamesUnique(rows)
    ensures NicknamesUnique(CallbackOutcome(rows, code, state, now, resp, nickname, fid, fidFresh, fidState).rows)
  {
    if code.Some? && state.Some? && !NoneMatch(rows, state) {
      var coded := SetCodeState(rows, code.value, state);
      SameNicknamesKeepUnique(rows, coded);
      if ReadTokens(resp).Success? {
        var stored := SetTokensByState(coded, ReadTokens(resp).value, now, state);
        SameNicknamesKeepUnique(coded, stored);
        SetNicknameKeepsUnique(stored, nickname, state.value);
      }
    }
  }

  /**
   * When no FID comes back (and the nickname is free or absent), NoFID is
   * raised only after the code, the tokens and the nickname were all stored.
   */
  lemma CallbackNoFIDAfterStoring(rows: seq<Row>, code: string, state: string, now: int, resp: HttpResult,
                                  nickname: Option<string>, fidFresh: bool, fidState: string)
    requires StatesDistinct(rows) && !NoneMatch(rows, Some(state))
    requires ReadTokens(resp).Success?
    requires nickname.Some? ==> forall i | 0 <= i < |rows| :: rows[i].nickname != nickname
    ensures var e := CallbackOutcome(rows, Some(code), Some(state), now, resp, nickname, None, fidFresh, fidState);
      var t := ReadTokens(resp).value;
      && e.result == Failure(NoFID(state))
      && OnlyMatchingChanged(rows, e.rows, Some(state))
      && forall i | 0 <= i < |rows| && Matches(rows[i], Some(state)) ::
           e.rows[i] == rows[i].(code := Some(code), access := Some(t.access), refresh := Some(t.refresh),
                                 expiresIn := Some(t.expiresIn), ts := Some(now), refreshTries := 0, nickname := nickname)
  {
    var t := ReadTokens(resp).value;
    CallbackTokensPath(rows, code, state, now, resp, t, nickname, None, fidFresh, fidState);
    StoredRows(rows, code, state, now, t);
    var stored := SetTokensByState(SetCodeState(rows, code, Some(state)), t, now, Some(state));
    if nickname.Some? {
      SameStatesKeepDistinct(rows, stored);
      assert forall i | 0 <= i < |stored| :: stored[i].nickname == rows[i].nickname;
      FreeNicknameDoesNotConflict(stored, nickname.value, Some(state));
    }
  }

  /**
   * When no FID comes back and the nickname is held by another state's row,
   * NoFID is raised only after the merge: the caller's row, carrying the code
   * and the new tokens, now sits under the holder's state with the nickname,
   * and the caller's own state is gone.
   */
  lemma CallbackNoFIDAfterMerge(rows: seq<Row>, code: string, state: string, now: int, resp: HttpResult,
                                nickname: string, o: nat, fidFresh: bool, fidState: string)
    requires NicknamesUnique(rows) && StatesDistinct(rows) && !NoneMatch(rows, Some(state))
    requires ReadTokens(resp).Success?
    requires o < |rows| && rows[o].nickname == Some(nickname)
    requires rows[o].state.Some? && rows[o].state != Some(state)
    ensures var e := CallbackOutcome(rows, Some(code), Some(state), now, resp, Some(nickname), None, fidFresh, fidState);
      var t := ReadTokens(resp).value;
      var c := FirstMatch(rows, Some(state));
      && c < |rows|
      && e.result == Failure(NoFID(state))
      && |e.rows| == |rows| - 1
      && rows[c].(code := Some(code), access := Some(t.access), refresh := Some(t.refresh), expiresIn := Some(t.expiresIn),
                  ts := Some(now), refreshTries := 0, state := rows[o].state, nickname := Some(nickname)) in e.rows
      && NoneMatch(e.rows, Some(state))
  {
    var t := ReadTokens(resp).value;
    var c := FirstMatch(rows, Some(state));
    CallbackTokensPath(rows, code, state, now, resp, t, Some(nickname), None, fidFresh, fidState);
    StoredRows(rows, code, state, now, t);
    var stored := SetTokensByState(SetCodeState(rows, code, Some(state)), t, now, Some(state));
    SameNicknamesKeepUnique(rows, stored);
    SameStatesKeepDistinct(rows, stored);
    MergeMovesRowToOldState(stored, nickname, state, c, o);
  }

  /** The URL `auth_init` sends the user to. */
  function AuthUrl(cfg: AuthConfig, challenge: string, state: string): string {
    cfg.authUrl + "?audience=all&scope=capi&response_type=code&client_id=" + cfg.clientId
    + "&code_challenge=" + challenge + "&code_challenge_method=S256&state=" + state
    + "&redirect_uri=" + cfg.redirectUrl
  }

  /**
   * The row `auth_init` stores and the challenge it sends agree in the sense
   * of section 4.6 of RFC 7636: hashing the stored verifier's ASCII bytes and
   * encoding the digest gives the challenge, and the challenge decodes back
   * to that digest.
   */
  lemma AuthInitChallengeMatchesVerifier(hash: seq<byte> -> Bytes32, rows: seq<Row>, rv: Bytes32, rs: Bytes32, now: int)
    ensures var stored := InsertAuthInit(rows, Base64UrlText(rv), Base64UrlText(rs), now)[|rows|];
      var challenge := GenerateChallenge(hash, Base64UrlEncode(rv));
      && stored.state == Some(Base64UrlText(rs))
      && GenerateChallenge(hash, AsciiBytes(stored.verifier)) == challenge
      && Base64UrlDecode(AsciiBytes(challenge) + [Pad]) == Some(hash(AsciiBytes(stored.verifier)))
  {
    var stored := InsertAuthInit(rows, Base64UrlText(rv), Base64UrlText(rs), now)[|rows|];
    assert AsciiBytes(stored.verifier) == Base64UrlEncode(rv);
    ChallengeDecodesToDigest(hash, Base64UrlEncode(rv));
  }

  class CAPIAuthorizer {
    const model: Model

    constructor (m: Model)
      ensures model == m
    {
      model := m;
    }

    /**
     * `auth_init`: `rv` and `rs` are the two 32-byte draws of `os.urandom`;
     * the verifier is the base64url text of `rv`, the challenge is computed
     * from its bytes, the state is the base64url text of `rs`.
     */
    method AuthInit(hash: seq<byte> -> Bytes32, rv: Bytes32, rs: Bytes32, now: int, cfg: AuthConfig) returns (url: string)
      requires model.Valid()
      modifies model
      ensures model.Valid()
      ensures model.rows == InsertAuthInit(old(model.rows), Base64UrlText(rv), Base64UrlText(rs), now)
      ensures url == AuthUrl(cfg, GenerateChallenge(hash, Base64UrlEncode(rv)), Base64UrlText(rs))
    {
      var codeVerifier := Base64UrlEncode(rv);
      var codeChallenge := GenerateChallenge(hash, codeVerifier);
      var stateString := Base64UrlText(rs);
      model.AuthInit(Base64UrlText(rv), stateString, now);
      url := AuthUrl(cfg, codeChallenge, stateString);
    }

    method FdevCallback(code: Option<string>, state: Option<string>, now: int, resp: HttpResult,
                        nickname: Option<string>, fid: Option<string>, fidFresh: bool, fidState: string)
      returns (r: Result<Msg, Exc>)
      requires model.Valid()
      modifies model
      ensures model.Valid()
      ensures Effect(r, model.rows) == CallbackOutcome(old(model.rows), code, state, now, resp, nickname, fid, fidFresh, fidState)
    {
      if code.None? || state.None? {
        return Failure(TypeError);
      }
      var verifier := model.GetVerifier(state.value);
      if verifier.Failure? {
        return Failure(verifier.error);
      }
      model.SetCode(code.value, state.value);
      var tokens := ReadTokens(resp);
      if tokens.Failure? {
        return Failure(tokens.error);
      }
      var t := tokens.value;
      model.SetTokens(t.access, t.refresh, t.expiresIn, now, state.value);
      var named := model.SetNickname(nickname, state.value);
      if named.Failure? {
        return Failure(named.error);
      }
      if fid.None? {
        return Failure(NoFID(state.value));
      }
      var msg := Msg("ok", "", "");
      if !fidFresh {
        msg := msg.(description := "Tokens updated");
      } else {
        msg := msg.(description := "Tokens saved");
      }
      msg := msg.(state := fidState);
      return Success(msg);
    }

    method GetTokenByState(state: string, now: int, resp: HttpResult) returns (r: Result<Option<TokenReport>, Exc>)
      requires model.Valid()
      modifies model
      ensures model.Valid()
      ensures Effect(r, model.rows) == GetTokenOutcome(old(model.rows), state, now, resp)
    {
      ghost var before := model.rows;
      var refreshed := RefreshByState(state, false, true, now, resp);
      assert GetTokenOutcome(before, state, now, resp) == ReportAfterRefresh(Effect(refreshed, model.rows), state, now);
      if refreshed.Failure? {
        if IsCAPIException(refreshed.error) {
          return Success(None);
        }
        return Failure(refreshed.error);
      }
      var row := model.GetTokenForUser(state);
      if row.None? {
        return Success(None);
      }
      if row.value.expiresOn.None? {
        return Failure(TypeError);
      }
      var expiresOn := row.value.expiresOn.value;
      return Success(Some(TokenReport(row.value.access, expiresOn, row.value.nickname, expiresOn - now)));
    }

    method RefreshByState(state: string, force: bool, tolerant: bool, now: int, resp: HttpResult) returns (r: Result<Msg, Exc>)
      requires model.Valid()
      modifies model
      ensures model.Valid()
      ensures Effect(r, model.rows) == RefreshOutcome(old(model.rows), state, force, tolerant, now, resp)
    {
      var row := model.GetRow(state);
      if row.None? {
        return Failure(RefreshFail(NoSuchState, "error", state));
      }
      if row.value.ts.None? || row.value.expiresIn.None? {
        return Failure(TypeError);
      }
      if now < row.value.ts.value + row.value.expiresIn.value - RefreshMargin && !force {
        return Success(Msg("ok", NotRequired, state));
      }
      var attempt := RefreshAttempt(resp);
      if attempt.Success? {
        var t := attempt.value;
        model.SetTokens(t.access, t.refresh, t.expiresIn, now, state);
        return Success(Msg("ok", Refreshed, state));
      }
      if attempt.error == ConnectionError {
        return Failure(RefreshFail(ConnectionLost, "error", state));
      }
      model.IncrementRefreshTries(state);
      if !tolerant && row.value.refreshTries >= RefreshTriesLimit {
        model.DeleteRow(state);
        return Failure(RefreshFail(RemovedForTries, "error", state));
      }
      return Failure(RefreshFail(TryLater, "error", state));
    }

    method DeleteByState(state: string)
      requires model.Valid()
      modifies model
      ensures model.Valid()
      ensures model.rows == Sql.DeleteByState(old(model.rows), Some(state))
    {
      model.DeleteRow(state);
    }

    method ListAllRecords() returns (r: seq<Listing>)
      ensures r == SelectNicknameStateAll(model.rows)
    {
      r := model.ListAllRecords();
    }
  }
}
