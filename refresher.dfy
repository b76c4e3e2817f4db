/**
 * refresher.py: the legacy refresh policy on the same `authorizations`
 * table. There is no safety margin, no try counter, status codes other than
 * 418 are not checked, and a failure after the response arrived deletes the row.
 */
module Refresher {
  import opened Wrappers
  import opened Exceptions
  import opened Provider
  import opened Sql
  import opened Store

  /**
   * The legacy `update authorizations set access_token, refresh_token,
   * expires_in, timestamp_got_expires_in where state = ?`: the same columns
   * as `set_tokens_by_state` but `refresh_tries` is left as it is.
   */
  function UpdateTokens(rows: seq<Row>, t: Tokens, ts: int, key: Option<string>): (r: seq<Row>)
    ensures OnlyMatchingChanged(rows, r, key)
    ensures forall i | 0 <= i < |rows| && Matches(rows[i], key) ::
      r[i] == rows[i].(access := Some(t.access), refresh := Some(t.refresh), expiresIn := Some(t.expiresIn), ts := Some(ts))
    ensures SameStates(rows, r) && SameNicknames(rows, r)
  {
    UpdateWhere(rows, key, SetTokensKeepTries(t, ts))
  }

  /**
   * `refresh_one_token(state, force)` with the clock reading `now` and the
   * token endpoint's answer `resp`. `state` is None for a NULL state cell.
   */
  function RefreshOneOutcome(rows: seq<Row>, state: Option<string>, force: bool, now: int, resp: HttpResult): Effect<()>
  {
    match SelectAllByState(rows, state)
    // None[1] raises TypeError; the handler then reads the unbound `refresh_request`
    case None => Effect(Failure(UnboundLocalError), rows)
    case Some(row) =>
      if row.ts.None? || row.expiresIn.None? then Effect(Failure(UnboundLocalError), rows)
      else if now < row.ts.value + row.expiresIn.value && !force then Effect(Success(()), rows)
      else match resp
        // `requests.post` raised: `refresh_request` was never bound
        case ConnectionFailed => Effect(Failure(UnboundLocalError), rows)
        case RequestFailed => Effect(Failure(UnboundLocalError), rows)
        case Response(status, body) =>
          if status == 418 then Effect(Success(()), rows)
          else match body
            case NotJson => Effect(Success(()), rows)
            case MissingKey(k) => Effect(Failure(KeyError(k)), DeleteByState(rows, state))
            case TokenJson(t) => Effect(Success(()), UpdateTokens(rows, t, now, state))
  }

  /** One refresh keeps non-NULL nicknames pairwise distinct. */
  lemma RefreshOneKeepsUnique(rows: seq<Row>, state: Option<string>, force: bool, now: int, resp: HttpResult)
    requires NicknamesUnique(rows)
    ensures NicknamesUnique(RefreshOneOutcome(rows, state, force, now, resp).rows)
  {
    DeleteKeepsNicknamesUnique(rows, state);
    var row := SelectAllByState(rows, state);
    if row.Some? && resp.Response? && resp.body.TokenJson? {
      SameNicknamesKeepUnique(rows, UpdateTokens(rows, resp.body.tokens, now, state));
    }
  }

  /**
   * A refresh that returns normally keeps the states of all rows, and the
   * row it consulted still has both timestamps set.
   */
  lemma RefreshOneSuccessKeepsRow(rows: seq<Row>, state: Option<string>, force: bool, now: int, resp: HttpResult)
    requires RefreshOneOutcome(rows, state, force, now, resp).result.Success?
    ensures var after := RefreshOneOutcome(rows, state, force, now, resp).rows;
      var k := FirstMatch(rows, state);
      && SameStates(rows, after) && k < |after| && FirstMatch(after, state) == k
      && after[k].ts.Some? && after[k].expiresIn.Some?
  {
    var after := RefreshOneOutcome(rows, state, force, now, resp).rows;
    var k := FirstMatch(rows, state);
    assert k < |rows|;
    assert SelectAllByState(rows, state) == Some(rows[k]);
    if after != rows {
      assert after == UpdateTokens(rows, resp.body.tokens, now, state);
    }
    FirstMatchOfSameStates(rows, after, state);
  }

  /** Without force, a token is refreshed only once `now` has reached `ts + expires_in`: there is no margin. */
  lemma NoMarginBeforeExpiry(rows: seq<Row>, state: string, now: int, resp: HttpResult)
    requires !NoneMatch(rows, Some(state))
    requires var row := rows[FirstMatch(rows, Some(state))];
      row.ts.Some? && row.expiresIn.Some? && now < row.ts.value + row.expiresIn.value
    ensures RefreshOneOutcome(rows, Some(state), false, now, resp) == Effect(Success(()), rows)
  {
  }

  /** A 418 answer or a body that is not JSON returns quietly and leaves the table alone, whatever else holds. */
  lemma MaintenanceOrNonJsonChangesNothing(rows: seq<Row>, state: Option<string>, force: bool, now: int, resp: HttpResult)
    requires resp.Response? && (resp.status == 418 || resp.body.NotJson?)
    ensures RefreshOneOutcome(rows, state, force, now, resp).rows == rows
    ensures RefreshOneOutcome(rows, state, force, now, resp).result.Success? ||
            RefreshOneOutcome(rows, state, force, now, resp).result == Failure(UnboundLocalError)
  {
  }

  /** The branch of `refresh_one_token` taken when a due token's request got an answer other than 418. */
  lemma AnsweredPath(rows: seq<Row>, state: Option<string>, force: bool, now: int, status: int, body: Body, row: Row)
    requires SelectAllByState(rows, state) == Some(row)
    requires row.ts.Some? && row.expiresIn.Some? && (force || now >= row.ts.value + row.expiresIn.value)
    requires status != 418
    ensures RefreshOneOutcome(rows, state, force, now, Response(status, body))
      == if body.NotJson? then Effect(Success(()), rows)
         else if body.MissingKey? then Effect(Failure(KeyError(body.name)), DeleteByState(rows, state))
         else Effect(Success(()), UpdateTokens(rows, body.tokens, now, state))
  {
  }

  /** A due token with a token body is overwritten with the time `now`, in the rows of that state only. */
  lemma DueTokenIsOverwritten(rows: seq<Row>, state: string, force: bool, now: int, status: int, t: Tokens)
    requires !NoneMatch(rows, Some(state)) && status != 418
    requires var row := rows[FirstMatch(rows, Some(state))];
      row.ts.Some? && row.expiresIn.Some? && (force || now >= row.ts.value + row.expiresIn.value)
    ensures var e := RefreshOneOutcome(rows, Some(state), force, now, Response(status, TokenJson(t)));
      && e.result.Success?
      && OnlyMatchingChanged(rows, e.rows, Some(state))
      && forall i | 0 <= i < |rows| && Matches(rows[i], Some(state)) ::
           e.rows[i] == rows[i].(access := Some(t.access), refresh := Some(t.refresh), expiresIn := Some(t.expiresIn), ts := Some(now))
  {
    var row := rows[FirstMatch(rows, Some(state))];
    assert SelectAllByState(rows, Some(state)) == Some(row);
    AnsweredPath(rows, Some(state), force, now, status, TokenJson(t), row);
  }

  /** A JSON body without a token key, once the request was made, deletes every row of the state and re-raises. */
  lemma MissingKeyDeletesRow(rows: seq<Row>, state: string, force: bool, now: int, status: int, k: string)
    requires !NoneMatch(rows, Some(state)) && status != 418
    requires var row := rows[FirstMatch(rows, Some(state))];
      row.ts.Some? && row.expiresIn.Some? && (force || now >= row.ts.value + row.expiresIn.value)
    ensures var e := RefreshOneOutcome(rows, Some(state), force, now, Response(status, MissingKey(k)));
      && e.result == Failure(KeyError(k))
      && NoneMatch(e.rows, Some(state))
      && forall x :: x in e.rows <==> x in rows && !Matches(x, Some(state))
  {
    var row := rows[FirstMatch(rows, Some(state))];
    assert SelectAllByState(rows, Some(state)) == Some(row);
    AnsweredPath(rows, Some(state), force, now, status, MissingKey(k), row);
    DeleteLeavesNone(rows, Some(state));
  }

  /**
   * A failure before the response exists (no row, a token-less row, or
   * `requests.post` raising) surfaces as UnboundLocalError from the handler,
   * whose delete never runs.
   */
  lemma EarlyFailureKeepsRow(rows: seq<Row>, state: Option<string>, force: bool, now: int, resp: HttpResult)
    requires var row := SelectAllByState(rows, state);
      || row.None?
      || row.value.ts.None? || row.value.expiresIn.None?
      || ((force || now >= row.value.ts.value + row.value.expiresIn.value) && !resp.Response?)
    ensures RefreshOneOutcome(rows, state, force, now, resp) == Effect(Failure(UnboundLocalError), rows)
  {
  }

  /** `select state from authorizations` then `fetchall()`: every state cell, in table order. */
  function StatesOf(rows: seq<Row>): (r: seq<Option<string>>)
    ensures |r| == |rows| && forall i | 0 <= i < |rows| :: r[i] == rows[i].state
  {
    seq(|rows|, i requires 0 <= i < |rows| => rows[i].state)
  }

  /**
   * Refreshing `states[i..]` one after the other, the i-th request answered
   * by `respond(i)`, stopping at the first exception.
   */
  function RefreshEach(rows: seq<Row>, states: seq<Option<string>>, i: nat, now: int, respond: nat -> HttpResult): (e: Effect<()>)
    decreases |states| - i
  {
    if i >= |states| then Effect(Success(()), rows)
    else
      var one := RefreshOneOutcome(rows, states[i], false, now, respond(i));
      if one.result.Failure? then one else RefreshEach(one.rows, states, i + 1, now, respond)
  }

  /** Every answer is a 418: the whole sweep leaves the table as it was. */
  lemma {:induction false} MaintenanceSweepChangesNothing(rows: seq<Row>, states: seq<Option<string>>, i: nat, now: int,
                                                          respond: nat -> HttpResult)
    requires forall j: nat :: respond(j).Response? && respond(j).status == 418
    ensures RefreshEach(rows, states, i, now, respond).rows == rows
    decreases |states| - i
  {
    if i < |states| {
      MaintenanceOrNonJsonChangesNothing(rows, states[i], false, now, respond(i));
      MaintenanceSweepChangesNothing(rows, states, i + 1, now, respond);
    }
  }

  /** The sweep keeps non-NULL nicknames pairwise distinct. */
  lemma {:induction false} RefreshEachKeepsUnique(rows: seq<Row>, states: seq<Option<string>>, i: nat, now: int,
                                                  respond: nat -> HttpResult)
    requires NicknamesUnique(rows)
    ensures NicknamesUnique(RefreshEach(rows, states, i, now, respond).rows)
    decreases |states| - i
  {
    if i < |states| {
      var one := RefreshOneOutcome(rows, states[i], false, now, respond(i));
      RefreshOneKeepsUnique(rows, states[i], false, now, respond(i));
      if one.result.Success? {
        RefreshEachKeepsUnique(one.rows, states, i + 1, now, respond);
      }
    }
  }

  method RefreshOneToken(db: Model, state: Option<string>, force: bool, now: int, resp: HttpResult) returns (r: Result<(), Exc>)
    requires db.Valid()
    modifies db
    ensures db.Valid()
    ensures Effect(r, db.rows) == RefreshOneOutcome(old(db.rows), state, force, now, resp)
  {
    var row := SelectAllByState(db.rows, state);
    if row.None? || row.value.ts.None? || row.value.expiresIn.None? {
      return Failure(UnboundLocalError);
    }
    if now < row.value.ts.value + row.value.expiresIn.value && !force {
      return Success(());
    }
    if !resp.Response? {
      return Failure(UnboundLocalError);
    }
    if resp.status == 418 {
      return Success(());
    }
    if resp.body.NotJson? {
      return Success(());
    }
    if resp.body.MissingKey? {
      DeleteKeepsNicknamesUnique(db.rows, state);
      db.rows := DeleteByState(db.rows, state);
      return Failure(KeyError(resp.body.name));
    }
    SameNicknamesKeepUnique(db.rows, UpdateTokens(db.rows, resp.body.tokens, now, state));
    db.rows := UpdateTokens(db.rows, resp.body.tokens, now, state);
    return Success(());
  }

  /** `refresh_all_suitable_tokens`: one `refresh_one_token` per stored state, in table order, until one raises. */
  method RefreshAllSuitableTokens(db: Model, now: int, respond: nat -> HttpResult) returns (r: Result<(), Exc>)
    requires db.Valid()
    modifies db
    ensures db.Valid()
    ensures Effect(r, db.rows) == RefreshEach(old(db.rows), StatesOf(old(db.rows)), 0, now, respond)
  {
    var states := StatesOf(db.rows);
    var i := 0;
    while i < |states|
      invariant i <= |states|
      invariant db.Valid()
      invariant RefreshEach(db.rows, states, i, now, respond) == RefreshEach(old(db.rows), states, 0, now, respond)
    {
      var one := RefreshOneToken(db, states[i], false, now, respond(i));
      if one.Failure? {
        return one;
      }
      i := i + 1;
    }
    return Success(());
  }
}
