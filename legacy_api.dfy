/**
 * main.py: the legacy Falcon resources on the same `authorizations` table.
 * `Authorize` starts a flow, `FDEV_redirect` completes it (deleting the new
 * row when the commander is already stored), `User` reads or removes a row.
 * The pages are modelled by what they say, not by their HTML.
 */
module LegacyApi {
  import opened Wrappers
  import opened Exceptions
  import opened Provider
  import opened Sql
  import opened Challenge
  import opened Store
  import opened Refresher
  import Authorizer

  /** What `FDEV_redirect` answers when it does not raise. */
  datatype Page =
    | AllRight(nickname: string, state: string)               // "All right, {nickname}, ... key: {state}"
    | AlreadyStored(nickname: string, key: Option<string>)    // "We already have your token (CMDR ...) ..., your key: ..."
    | SomethingWentWrong(errorId: string)

  /** The JSON `User.on_get` answers. */
  datatype UserInfo = UserInfo(access: Option<string>, expiresOver: int, expiresOn: int, nickname: Option<string>)

  const Intruder := "Don't show here without passing frontier authorization!"

  /** A query parameter that is absent or empty, as `not code` tests it. */
  predicate Blank(p: Option<string>) {
    p.None? || p.value == ""
  }

  /**
   * `FDEV_redirect.on_get`. `resp` is the token endpoint's answer, `profile`
   * the commander name read from the profile endpoint (None when that read
   * raises), `errorId` the random error id of the request.
   */
  function RedirectOutcome(rows: seq<Row>, code: Option<string>, state: Option<string>, now: int, resp: HttpResult,
                           profile: Option<string>, errorId: string): (e: Effect<Page>)
    ensures Blank(code) || Blank(state) ==> e == Effect(Failure(BadRequest("No code or no state")), rows)
    ensures !Blank(code) && !Blank(state) && NoneMatch(rows, state) ==> e == Effect(Failure(BadRequest(Intruder)), rows)
  {
    if Blank(code) || Blank(state) then Effect(Failure(BadRequest("No code or no state")), rows)
    else if NoneMatch(rows, state) then Effect(Failure(BadRequest(Intruder)), rows)
    else
      var coded := SetCodeState(rows, code.value, state);
      match resp
      case ConnectionFailed => Effect(Failure(ConnectionError), coded)
      case RequestFailed => Effect(Failure(RequestError), coded)
      case Response(status, body) =>
        if status != 200 then
          Effect(Failure(BadRequest("Something went wrong, your error id is " + errorId)), DeleteByState(coded, state))
        else match body
          case NotJson => Effect(Failure(JsonDecodeError), coded)
          case MissingKey(k) => Effect(Failure(KeyError(k)), coded)
          case TokenJson(t) => StoreNickname(StoredTokens(rows, code.value, state.value, now, t), state.value, profile, errorId)
  }

  /**
   * The nickname part of `FDEV_redirect.on_get`, on the table `stored` that
   * already holds the code and the tokens. On a UNIQUE conflict the new row
   * is deleted and the holder's state reported; a failed profile read, or a
   * conflict with no holder to report, also deletes it.
   */
  function StoreNickname(stored: seq<Row>, state: string, profile: Option<string>, errorId: string): (e: Effect<Page>)
    ensures e.result.Success?
    ensures e.result.value.AllRight? || e.rows == DeleteByState(stored, Some(state))
  {
    if profile.None? then Effect(Success(SomethingWentWrong(errorId)), DeleteByState(stored, Some(state)))
    else match SetNicknameByState(stored, profile, Some(state))
      case Success(r) => Effect(Success(AllRight(profile.value, state)), r)
      case Failure(_) =>
        match SelectStateByNickname(stored, profile.value)
        // fetchone() is None: None[0] raises TypeError, caught by the outer handler
        case None => Effect(Success(SomethingWentWrong(errorId)), DeleteByState(stored, Some(state)))
        case Some(holder) => Effect(Success(AlreadyStored(profile.value, holder)), DeleteByState(stored, Some(state)))
  }

  /** With a 200 token response, `FDEV_redirect` goes on to the nickname with the code and tokens stored. */
  lemma RedirectStoresTokens(rows: seq<Row>, code: Option<string>, state: Option<string>, now: int, t: Tokens,
                             profile: Option<string>, errorId: string)
    requires !Blank(code) && !Blank(state) && !NoneMatch(rows, state)
    ensures RedirectOutcome(rows, code, state, now, Response(200, TokenJson(t)), profile, errorId)
      == StoreNickname(StoredTokens(rows, code.value, state.value, now, t), state.value, profile, errorId)
  {
  }

  /** The table after the code and the tokens of a redirect are written. */
  function StoredTokens(rows: seq<Row>, code: string, state: string, now: int, t: Tokens): (stored: seq<Row>)
    ensures SameStates(rows, stored)
    ensures forall i | 0 <= i < |rows| :: stored[i].nickname == rows[i].nickname
    ensures forall i | 0 <= i < |rows| && !Matches(rows[i], Some(state)) :: stored[i] == rows[i]
    ensures forall i | 0 <= i < |rows| && Matches(rows[i], Some(state)) ::
      stored[i] == rows[i].(code := Some(code), access := Some(t.access), refresh := Some(t.refresh),
                            expiresIn := Some(t.expiresIn), ts := Some(now))
  {
    var coded := SetCodeState(rows, code, Some(state));
    assert SameStates(rows, coded);
    UpdateTokens(coded, t, now, Some(state))
  }

  /** Deleting the state after the writes removes exactly what deleting it before them would. */
  lemma StoredTokensDeleteLikeRows(rows: seq<Row>, code: string, state: string, now: int, t: Tokens)
    ensures DeleteByState(StoredTokens(rows, code, state, now, t), Some(state)) == DeleteByState(rows, Some(state))
  {
    DeleteOfSameOthers(StoredTokens(rows, code, state, now, t), rows, Some(state));
  }

  /** A token response other than 200 deletes the row whose code was just stored. */
  lemma RedirectNon200DeletesRow(rows: seq<Row>, code: string, state: string, now: int, status: int, body: Body,
                                 profile: Option<string>, errorId: string)
    requires code != "" && state != "" && !NoneMatch(rows, Some(state)) && status != 200
    ensures RedirectOutcome(rows, Some(code), Some(state), now, Response(status, body), profile, errorId)
      == Effect(Failure(BadRequest("Something went wrong, your error id is " + errorId)), DeleteByState(rows, Some(state)))
  {
    var coded := SetCodeState(rows, code, Some(state));
    assert RedirectOutcome(rows, Some(code), Some(state), now, Response(status, body), profile, errorId)
      == Effect(Failure(BadRequest("Something went wrong, your error id is " + errorId)), DeleteByState(coded, Some(state)));
    assert DeleteByState(coded, Some(state)) == DeleteByState(rows, Some(state)) by {
      assert SameStates(coded, rows);
      DeleteOfSameOthers(coded, rows, Some(state));
    }
  }

  /** When the profile cannot be read, the new row is deleted and the page reports the error id. */
  lemma RedirectWithoutNicknameDeletesRow(rows: seq<Row>, code: string, state: string, now: int, t: Tokens, errorId: string)
    requires code != "" && state != "" && !NoneMatch(rows, Some(state))
    ensures RedirectOutcome(rows, Some(code), Some(state), now, Response(200, TokenJson(t)), None, errorId)
      == Effect(Success(SomethingWentWrong(errorId)), DeleteByState(rows, Some(state)))
  {
    RedirectStoresTokens(rows, Some(code), Some(state), now, t, None, errorId);
    StoredTokensDeleteLikeRows(rows, code, state, now, t);
  }

  /** On the written table: a nickname held by a row of another state makes the page report that row's state. */
  lemma ConflictReportsHolder(stored: seq<Row>, state: string, nickname: string, c: nat, o: nat, errorId: string)
    requires NicknamesUnique(stored)
    requires c < |stored| && Matches(stored[c], Some(state))
    requires o < |stored| && stored[o].nickname == Some(nickname) && !Matches(stored[o], Some(state))
    ensures StoreNickname(stored, state, Some(nickname), errorId)
      == Effect(Success(AlreadyStored(nickname, stored[o].state)), DeleteByState(stored, Some(state)))
  {
    assert Conflicts(stored, nickname, Some(state)) by {
      if c < o {
        assert HoldsAfter(stored[c], nickname, Some(state)) && HoldsAfter(stored[o], nickname, Some(state));
      } else {
        assert HoldsAfter(stored[o], nickname, Some(state)) && HoldsAfter(stored[c], nickname, Some(state));
      }
    }
    assert FirstHolder(stored, nickname) == o;
  }

  /** The conflict step of a redirect, on the table with the code and tokens written. */
  lemma StoredConflictDropsNewRow(rows: seq<Row>, code: string, state: string, now: int, t: Tokens,
                                  nickname: string, o: nat, errorId: string)
    requires NicknamesUnique(rows)
    requires !NoneMatch(rows, Some(state))
    requires o < |rows| && rows[o].nickname == Some(nickname) && rows[o].state != Some(state)
    ensures StoreNickname(StoredTokens(rows, code, state, now, t), state, Some(nickname), errorId)
      == Effect(Success(AlreadyStored(nickname, rows[o].state)), DeleteByState(rows, Some(state)))
  {
    var stored := StoredTokens(rows, code, state, now, t);
    assert NicknamesUnique(stored) by {
      assert forall i | 0 <= i < |rows| :: stored[i].nickname == rows[i].nickname;
    }
    var c := FirstMatch(rows, Some(state));
    assert Matches(stored[c], Some(state));
    assert stored[o] == rows[o];
    ConflictReportsHolder(stored, state, nickname, c, o, errorId);
    StoredTokensDeleteLikeRows(rows, code, state, now, t);
  }

  /**
   * The legacy conflict policy: when row o already holds the commander's
   * name, the new rows of `state` are deleted, row o stays as it was, and the
   * page gives o's state as the key to keep.
   */
  lemma RedirectConflictDropsNewRow(rows: seq<Row>, code: string, state: string, now: int, t: Tokens,
                                    nickname: string, o: nat, errorId: string)
    requires NicknamesUnique(rows)
    requires code != "" && state != "" && !NoneMatch(rows, Some(state))
    requires o < |rows| && rows[o].nickname == Some(nickname) && rows[o].state != Some(state)
    ensures var e := RedirectOutcome(rows, Some(code), Some(state), now, Response(200, TokenJson(t)), Some(nickname), errorId);
      && e == Effect(Success(AlreadyStored(nickname, rows[o].state)), DeleteByState(rows, Some(state)))
      && rows[o] in e.rows
  {
    RedirectStoresTokens(rows, Some(code), Some(state), now, t, Some(nickname), errorId);
    StoredConflictDropsNewRow(rows, code, state, now, t, nickname, o, errorId);
    DeleteKeepsOtherRow(rows, Some(state), o);
  }

  /** The nickname step of a redirect for a free commander name, on the table with the code and tokens written. */
  lemma StoredFreeNickname(rows: seq<Row>, code: string, state: string, now: int, t: Tokens,
                           nickname: string, errorId: string)
    requires StatesDistinct(rows)
    requires forall i | 0 <= i < |rows| :: rows[i].nickname != Some(nickname)
    ensures var e := StoreNickname(StoredTokens(rows, code, state, now, t), state, Some(nickname), errorId);
      && e.result == Success(AllRight(nickname, state))
      && OnlyMatchingChanged(rows, e.rows, Some(state))
      && forall i | 0 <= i < |rows| && Matches(rows[i], Some(state)) ::
           e.rows[i] == rows[i].(code := Some(code), access := Some(t.access), refresh := Some(t.refresh),
                                 expiresIn := Some(t.expiresIn), ts := Some(now), nickname := Some(nickname))
  {
    var stored := StoredTokens(rows, code, state, now, t);
    assert StatesDistinct(stored) by {
      assert forall i | 0 <= i < |rows| :: stored[i].state == rows[i].state;
    }
    Authorizer.FreeNicknameDoesNotConflict(stored, nickname, Some(state));
  }

  /** A commander name no row holds is stored on the new row, and the page names the nickname and the state. */
  lemma RedirectStoresFreeNickname(rows: seq<Row>, code: string, state: string, now: int, t: Tokens,
                                   nickname: string, errorId: string)
    requires StatesDistinct(rows)
    requires code != "" && state != "" && !NoneMatch(rows, Some(state))
    requires forall i | 0 <= i < |rows| :: rows[i].nickname != Some(nickname)
    ensures var e := RedirectOutcome(rows, Some(code), Some(state), now, Response(200, TokenJson(t)), Some(nickname), errorId);
      && e.result == Success(AllRight(nickname, state))
      && OnlyMatchingChanged(rows, e.rows, Some(state))
      && forall i | 0 <= i < |rows| && Matches(rows[i], Some(state)) ::
           e.rows[i] == rows[i].(code := Some(code), access := Some(t.access), refresh := Some(t.refresh),
                                 expiresIn := Some(t.expiresIn), ts := Some(now), nickname := Some(nickname))
  {
    RedirectStoresTokens(rows, Some(code), Some(state), now, t, Some(nickname), errorId);
    StoredFreeNickname(rows, code, state, now, t, nickname, errorId);
  }


  /**
   * `User.on_get`: an unknown state is refused before any refresh; otherwise
   * `refresh_one_token` runs and the row is read back with
   * `expires_over = ts + expires_in - now`.
   */
  function UserGetOutcome(rows: seq<Row>, user: string, now: int, resp: HttpResult): (e: Effect<UserInfo>)
    ensures NoneMatch(rows, Some(user)) ==> e == Effect(Failure(NotFound("Couldn't find you in DB")), rows)
    ensures e.result.Success? ==> e.result.value.expiresOver == e.result.value.expiresOn - now
  {
    if NoneMatch(rows, Some(user)) then Effect(Failure(NotFound("Couldn't find you in DB")), rows)
    else
      var refreshed := RefreshOneOutcome(rows, Some(user), false, now, resp);
      if refreshed.result.Failure? then Effect(Failure(refreshed.result.error), refreshed.rows)
      else match Sql.GetTokenForUser(refreshed.rows, Some(user))
        // unpacking None, or `None - int`, raises TypeError
        case None => Effect(Failure(TypeError), refreshed.rows)
        case Some(v) =>
          if v.expiresOn.None? then Effect(Failure(TypeError), refreshed.rows)
          else Effect(Success(UserInfo(v.access, v.expiresOn.value - now, v.expiresOn.value, v.nickname)), refreshed.rows)
  }

  /** A refresh that returns normally keeps the row, and the answer reports its expiry. */
  lemma UserGetReportsExpiry(rows: seq<Row>, user: string, now: int, resp: HttpResult)
    requires !NoneMatch(rows, Some(user))
    requires RefreshOneOutcome(rows, Some(user), false, now, resp).result.Success?
    ensures var e := UserGetOutcome(rows, user, now, resp);
      var k := FirstMatch(e.rows, Some(user));
      && k < |e.rows| && e.rows[k].ts.Some? && e.rows[k].expiresIn.Some?
      && e.result.Success?
      && e.result.value.expiresOn == e.rows[k].ts.value + e.rows[k].expiresIn.value
      && e.result.value.access == e.rows[k].access && e.result.value.nickname == e.rows[k].nickname
  {
    RefreshOneSuccessKeepsRow(rows, Some(user), false, now, resp);
  }

  method Authorize(db: Model, hash: seq<byte> -> Bytes32, rv: Bytes32, rs: Bytes32, now: int, cfg: Authorizer.AuthConfig)
    returns (link: string)
    requires db.Valid()
    modifies db
    ensures db.Valid()
    ensures db.rows == InsertAuthInit(old(db.rows), Base64UrlText(rv), Base64UrlText(rs), now)
    ensures link == Authorizer.AuthUrl(cfg, GenerateChallenge(hash, Base64UrlEncode(rv)), Base64UrlText(rs))
  {
    var codeVerifier := Base64UrlEncode(rv);
    var codeChallenge := GenerateChallenge(hash, codeVerifier);
    var stateString := Base64UrlText(rs);
    link := Authorizer.AuthUrl(cfg, codeChallenge, stateString);
    db.rows := InsertAuthInit(db.rows, Base64UrlText(rv), stateString, now);
  }

  method FdevRedirect(db: Model, code: Option<string>, state: Option<string>, now: int, resp: HttpResult,
                      profile: Option<string>, errorId: string) returns (r: Result<Page, Exc>)
    requires db.Valid()
    modifies db
    ensures db.Valid()
    ensures Effect(r, db.rows) == RedirectOutcome(old(db.rows), code, state, now, resp, profile, errorId)
  {
    if Blank(code) || Blank(state) {
      return Failure(BadRequest("No code or no state"));
    }
    var verifier := SelectAllByState(db.rows, state);
    if verifier.None? {
      return Failure(BadRequest(Intruder));
    }
    SameNicknamesKeepUnique(db.rows, SetCodeState(db.rows, code.value, state));
    db.rows := SetCodeState(db.rows, code.value, state);
    if resp.ConnectionFailed? {
      return Failure(ConnectionError);
    }
    if resp.RequestFailed? {
      return Failure(RequestError);
    }
    if resp.status != 200 {
      DeleteKeepsNicknamesUnique(db.rows, state);
      db.rows := DeleteByState(db.rows, state);
      return Failure(BadRequest("Something went wrong, your error id is " + errorId));
    }
    match resp.body {
      case NotJson => return Failure(JsonDecodeError);
      case MissingKey(k) => return Failure(KeyError(k));
      case TokenJson(t) =>
        SameNicknamesKeepUnique(db.rows, UpdateTokens(db.rows, t, now, state));
        db.rows := UpdateTokens(db.rows, t, now, state);
    }
    ghost var stored := db.rows;
    var page: Page;
    if profile.None? {
      page := SomethingWentWrong(errorId);
    } else {
      var upd := SetNicknameByState(db.rows, profile, state);
      if upd.Success? {
        db.rows := upd.value;
        return Success(AllRight(profile.value, state.value));
      }
      var holder := SelectStateByNickname(db.rows, profile.value);
      page := if holder.Some? then AlreadyStored(profile.value, holder.value) else SomethingWentWrong(errorId);
    }
    DeleteKeepsNicknamesUnique(db.rows, state);
    db.rows := DeleteByState(db.rows, state);
    assert StoreNickname(stored, state.value, profile, errorId) == Effect(Success(page), db.rows);
    return Success(page);
  }

  method UserGet(db: Model, user: string, now: int, resp: HttpResult) returns (r: Result<UserInfo, Exc>)
    requires db.Valid()
    modifies db
    ensures db.Valid()
    ensures Effect(r, db.rows) == UserGetOutcome(old(db.rows), user, now, resp)
  {
    if SelectAllByState(db.rows, Some(user)).None? {
      return Failure(NotFound("Couldn't find you in DB"));
    }
    var refreshed := RefreshOneToken(db, Some(user), false, now, resp);
    if refreshed.Failure? {
      return Failure(refreshed.error);
    }
    var row := Sql.GetTokenForUser(db.rows, Some(user));
    if row.None? || row.value.expiresOn.None? {
      return Failure(TypeError);
    }
    var expiresTimestamp := row.value.expiresOn.value;
    return Success(UserInfo(row.value.access, expiresTimestamp - now, expiresTimestamp, row.value.nickname));
  }

  method UserDelete(db: Model, user: string)
    requires db.Valid()
    modifies db
    ensures db.Valid()
    ensures db.rows == DeleteByState(old(db.rows), Some(user))
  {
    DeleteKeepsNicknamesUnique(db.rows, Some(user));
    db.rows := DeleteByState(db.rows, Some(user));
  }
}
