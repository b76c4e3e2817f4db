/**
 * capi/model.py: the `Model` object that owns the `authorizations` table.
 * Every setter runs one statement of capi/sqlite_requests.py on the table in
 * place; `SetNickname` falls back to the delete, rename and update sequence
 * when the UNIQUE constraint on `nickname` fires.
 */
module Store {
  import opened Wrappers
  import opened Exceptions
  import opened Provider
  import opened Sql

  /** What one call did: its return value or exception, and the table afterwards. */
  datatype Effect<T> = Effect(result: Result<T, Exc>, rows: seq<Row>)

  /**
   * `get_state_by_nickname`: the state of the row holding the nickname; None
   * when no row holds it (and, as Python cannot tell them apart, when that row's state is NULL).
   */
  function StateByNickname(rows: seq<Row>, nickname: string): (r: Option<string>)
    ensures (forall i | 0 <= i < |rows| :: rows[i].nickname != Some(nickname)) ==> r.None?
    ensures r.Some? ==> exists i | 0 <= i < |rows| :: rows[i].nickname == Some(nickname) && rows[i].state == r
  {
    match SelectStateByNickname(rows, nickname)
    case None => None
    case Some(s) => s
  }

  /** With nicknames unique, the state returned is the holder's, whichever row holds the nickname. */
  lemma StateByNicknameFindsHolder(rows: seq<Row>, nickname: string, o: nat)
    requires NicknamesUnique(rows)
    requires o < |rows| && rows[o].nickname == Some(nickname)
    ensures StateByNickname(rows, nickname) == rows[o].state
  {
    assert FirstHolder(rows, nickname) == o;
  }

  /**
   * The table effect and result of `set_nickname`: True when the update went
   * through; otherwise the row holding the nickname is deleted, the caller's
   * rows are renamed to its state, the nickname is set there and the result is
   * False (or the IntegrityError of that last update escapes).
   */
  function SetNicknameOutcome(rows: seq<Row>, nickname: Option<string>, state: string): (e: Effect<bool>)
    ensures (nickname.None? || !Conflicts(rows, nickname.value, Some(state))) ==>
      && e.result == Success(true)
      && OnlyMatchingChanged(rows, e.rows, Some(state))
      && forall i | 0 <= i < |rows| && Matches(rows[i], Some(state)) :: e.rows[i] == rows[i].(nickname := nickname)
    ensures nickname.Some? && Conflicts(rows, nickname.value, Some(state)) ==> e.result != Success(true)
  {
    match SetNicknameByState(rows, nickname, Some(state))
    case Success(r) => Effect(Success(true), r)
    case Failure(_) =>
      var stateToSet := StateByNickname(rows, nickname.value);
      var renamed := UpdateStateByState(DeleteByState(rows, stateToSet), stateToSet, Some(state));
      match SetNicknameByState(renamed, nickname, stateToSet)
      case Success(r) => Effect(Success(false), r)
      case Failure(err) => Effect(Failure(err), renamed)
  }

  /** In both branches of `set_nickname` non-NULL nicknames stay pairwise distinct. */
  lemma SetNicknameKeepsUnique(rows: seq<Row>, nickname: Option<string>, state: string)
    ensures NicknamesUnique(rows) ==> NicknamesUnique(SetNicknameOutcome(rows, nickname, state).rows)
  {
    if NicknamesUnique(rows) {
      SetNicknameByStateKeepsUnique(rows, nickname, Some(state));
      if SetNicknameByState(rows, nickname, Some(state)).Failure? {
        var stateToSet := StateByNickname(rows, nickname.value);
        var deleted := DeleteByState(rows, stateToSet);
        DeleteKeepsNicknamesUnique(rows, stateToSet);
        var renamed := UpdateStateByState(deleted, stateToSet, Some(state));
        SameNicknamesKeepUnique(deleted, renamed);
        SetNicknameByStateKeepsUnique(renamed, nickname, stateToSet);
      }
    }
  }

  /** With distinct states, at most one row matches a key. */
  lemma {:induction false} MatchCountOne(rows: seq<Row>, k: nat)
    requires StatesDistinct(rows) && k < |rows| && rows[k].state.Some?
    ensures MatchCount(rows, rows[k].state) == 1
  {
    if k == 0 {
      assert NoneMatch(rows[1..], rows[0].state) by {
        forall j | 0 <= j < |rows| - 1 ensures !Matches(rows[1..][j], rows[0].state) {
          assert rows[1..][j] == rows[j + 1];
        }
      }
    } else {
      assert rows[1..][k - 1] == rows[k];
      MatchCountOne(rows[1..], k - 1);
    }
  }

  /** The first step of the merge: the update conflicts, and the holder found is row o. */
  lemma MergeFindsHolder(rows: seq<Row>, nickname: string, state: string, c: nat, o: nat)
    requires NicknamesUnique(rows)
    requires c < |rows| && rows[c].state == Some(state)
    requires o < |rows| && rows[o].nickname == Some(nickname) && rows[o].state != Some(state)
    ensures Conflicts(rows, nickname, Some(state))
    ensures StateByNickname(rows, nickname) == rows[o].state
  {
    if c < o {
      assert HoldsAfter(rows[c], nickname, Some(state)) && HoldsAfter(rows[o], nickname, Some(state));
    } else {
      assert HoldsAfter(rows[o], nickname, Some(state)) && HoldsAfter(rows[c], nickname, Some(state));
    }
    assert FirstHolder(rows, nickname) == o;
  }

  /** With distinct states, only row p of a table carries p's state. */
  lemma OnlyRowWithState(rows: seq<Row>, p: nat)
    requires StatesDistinct(rows) && p < |rows| && rows[p].state.Some?
    ensures forall q | 0 <= q < |rows| && q != p :: rows[q].state != rows[p].state
  {
    forall q | 0 <= q < |rows| && q != p ensures rows[q].state != rows[p].state {
      if q < p { assert rows[q].state.Some? ==> rows[q].state != rows[p].state; }
      else { assert rows[p].state != rows[q].state; }
    }
  }

  /** Deleting the holder's state leaves no row with that state or with the nickname. */
  lemma DeleteRemovesHolder(rows: seq<Row>, nickname: string, o: nat)
    requires NicknamesUnique(rows)
    requires o < |rows| && rows[o].nickname == Some(nickname) && rows[o].state.Some?
    ensures var deleted := DeleteByState(rows, rows[o].state);
      forall q | 0 <= q < |deleted| :: deleted[q].state != rows[o].state && deleted[q].nickname != Some(nickname)
  {
    var deleted := DeleteByState(rows, rows[o].state);
    forall q | 0 <= q < |deleted| ensures deleted[q].state != rows[o].state && deleted[q].nickname != Some(nickname) {
      assert deleted[q] in rows;
      var k :| 0 <= k < |rows| && rows[k] == deleted[q];
      if k < o { assert rows[k].nickname.Some? ==> rows[k].nickname != rows[o].nickname; }
      else if k > o { assert rows[o].nickname != rows[k].nickname; }
    }
  }

  /** Every row other than c and o survives the delete, at an index other than c's. */
  lemma DeleteKeepsBystanders(rows: seq<Row>, c: nat, o: nat, p: nat)
    requires StatesDistinct(rows)
    requires c < |rows| && rows[c].state.Some?
    requires o < |rows| && rows[o].state.Some? && o != c
    requires var deleted := DeleteByState(rows, rows[o].state); p < |deleted| && deleted[p] == rows[c]
    ensures var deleted := DeleteByState(rows, rows[o].state);
      forall i | 0 <= i < |rows| && i != c && i != o :: exists q | 0 <= q < |deleted| && q != p :: deleted[q] == rows[i]
  {
    var deleted := DeleteByState(rows, rows[o].state);
    OnlyRowWithState(rows, o);
    OnlyRowWithState(rows, c);
    forall i | 0 <= i < |rows| && i != c && i != o
      ensures exists q | 0 <= q < |deleted| && q != p :: deleted[q] == rows[i]
    {
      assert rows[i] in deleted;
      var q :| 0 <= q < |deleted| && deleted[q] == rows[i];
      assert q != p;
    }
  }

  /**
   * The second step: deleting the holder's state removes row o only; row c
   * sits at index p of what remains, and no remaining row has the old state,
   * the nickname, or (besides p) the caller's state.
   */
  lemma MergeDeletesHolder(rows: seq<Row>, nickname: string, state: string, c: nat, o: nat) returns (p: nat)
    requires NicknamesUnique(rows) && StatesDistinct(rows)
    requires c < |rows| && rows[c].state == Some(state)
    requires o < |rows| && rows[o].nickname == Some(nickname)
    requires rows[o].state.Some? && rows[o].state != Some(state)
    ensures var deleted := DeleteByState(rows, rows[o].state);
      && |deleted| == |rows| - 1
      && p < |deleted| && deleted[p] == rows[c]
      && NicknamesUnique(deleted) && StatesDistinct(deleted)
      && (forall q | 0 <= q < |deleted| && q != p :: deleted[q].state != Some(state))
      && (forall q | 0 <= q < |deleted| :: deleted[q].state != rows[o].state && deleted[q].nickname != Some(nickname))
      && (forall i | 0 <= i < |rows| && i != c && i != o :: exists q | 0 <= q < |deleted| && q != p :: deleted[q] == rows[i])
  {
    var oldKey := rows[o].state;
    var deleted := DeleteByState(rows, oldKey);
    DeleteKeepsNicknamesUnique(rows, oldKey);
    DeleteKeepsStatesDistinct(rows, oldKey);
    MatchCountOne(rows, o);
    assert rows[c] in deleted;
    p :| 0 <= p < |deleted| && deleted[p] == rows[c];
    OnlyRowWithState(deleted, p);
    DeleteRemovesHolder(rows, nickname, o);
    DeleteKeepsBystanders(rows, c, o, p);
  }

  /** Renaming the caller's rows to the free state `oldKey` keeps the states distinct and touches row p only. */
  lemma RenameCaller(deleted: seq<Row>, p: nat, state: string, oldKey: Option<string>)
    requires StatesDistinct(deleted) && p < |deleted| && deleted[p].state == Some(state)
    requires forall q | 0 <= q < |deleted| && q != p :: deleted[q].state != Some(state)
    requires forall q | 0 <= q < |deleted| :: deleted[q].state != oldKey
    ensures var renamed := UpdateStateByState(deleted, oldKey, Some(state));
      && renamed[p] == deleted[p].(state := oldKey)
      && (forall q | 0 <= q < |renamed| && q != p :: renamed[q] == deleted[q])
      && StatesDistinct(renamed)
  {
    var renamed := UpdateStateByState(deleted, oldKey, Some(state));
    assert renamed[p] == deleted[p].(state := oldKey);
    assert forall q | 0 <= q < |renamed| && q != p :: renamed[q] == deleted[q];
    forall i, j | 0 <= i < j < |renamed| && renamed[i].state.Some? ensures renamed[i].state != renamed[j].state {
      if i != p && j != p { assert deleted[i].state.Some? ==> deleted[i].state != deleted[j].state; }
    }
  }

  /** Once only row p carries `oldKey` and no row holds the nickname, setting it there cannot conflict. */
  lemma NicknameFreeExceptAt(renamed: seq<Row>, p: nat, nickname: string, oldKey: Option<string>)
    requires p < |renamed|
    requires forall q | 0 <= q < |renamed| && q != p :: !Matches(renamed[q], oldKey) && renamed[q].nickname != Some(nickname)
    ensures !Conflicts(renamed, nickname, oldKey)
  {
    forall i, j | 0 <= i < j < |renamed|
      ensures !(HoldsAfter(renamed[i], nickname, oldKey) && HoldsAfter(renamed[j], nickname, oldKey))
    {
      assert i != p ==> !HoldsAfter(renamed[i], nickname, oldKey);
      assert j != p ==> !HoldsAfter(renamed[j], nickname, oldKey);
    }
  }

  /**
   * The last two steps: renaming the caller's row to the old state and giving
   * it the nickname succeeds and touches row p only.
   */
  lemma MergeRenamesCaller(deleted: seq<Row>, p: nat, nickname: string, state: string, oldKey: Option<string>)
    requires StatesDistinct(deleted) && p < |deleted| && deleted[p].state == Some(state)
    requires oldKey.Some? && oldKey != Some(state)
    requires forall q | 0 <= q < |deleted| && q != p :: deleted[q].state != Some(state)
    requires forall q | 0 <= q < |deleted| :: deleted[q].state != oldKey && deleted[q].nickname != Some(nickname)
    ensures var last := SetNicknameByState(UpdateStateByState(deleted, oldKey, Some(state)), Some(nickname), oldKey);
      && last.Success?
      && |last.value| == |deleted|
      && last.value[p] == deleted[p].(state := oldKey, nickname := Some(nickname))
      && (forall q | 0 <= q < |deleted| && q != p :: last.value[q] == deleted[q])
      && StatesDistinct(last.value)
      && NoneMatch(last.value, Some(state))
      && (forall x | x in last.value && x.state == oldKey :: x == last.value[p])
  {
    var renamed := UpdateStateByState(deleted, oldKey, Some(state));
    RenameCaller(deleted, p, state, oldKey);
    NicknameFreeExceptAt(renamed, p, nickname, oldKey);
    var r := SetNicknameByState(renamed, Some(nickname), oldKey).value;
    SameStatesKeepDistinct(renamed, r);
    forall x | x in r && x.state == oldKey ensures x == r[p] {
      var q :| 0 <= q < |r| && r[q] == x;
    }
  }

  /**
   * The merge of `set_nickname` (capi/model.py:76-91). Row c carries the
   * caller's state, row o already holds the nickname under another state.
   * Afterwards the table has one row fewer: o is gone, c survives renamed to
   * o's state with the nickname and its own tokens, every other row is kept,
   * and the caller's state names no row any more.
   */
  lemma MergeMovesRowToOldState(rows: seq<Row>, nickname: string, state: string, c: nat, o: nat)
    requires NicknamesUnique(rows) && StatesDistinct(rows)
    requires c < |rows| && rows[c].state == Some(state)
    requires o < |rows| && rows[o].nickname == Some(nickname)
    requires rows[o].state.Some? && rows[o].state != Some(state)
    ensures var e := SetNicknameOutcome(rows, Some(nickname), state);
      var survivor := rows[c].(state := rows[o].state, nickname := Some(nickname));
      && e.result == Success(false)
      && |e.rows| == |rows| - 1
      && survivor in e.rows
      && (forall x | x in e.rows && x.state == rows[o].state :: x == survivor)
      && (forall i | 0 <= i < |rows| && i != c && i != o :: rows[i] in e.rows)
      && NoneMatch(e.rows, Some(state))
      && NicknamesUnique(e.rows) && StatesDistinct(e.rows)
  {
    var oldKey := rows[o].state;
    var survivor := rows[c].(state := oldKey, nickname := Some(nickname));
    MergeFindsHolder(rows, nickname, state, c, o);
    var p := MergeDeletesHolder(rows, nickname, state, c, o);
    var deleted := DeleteByState(rows, oldKey);
    MergeRenamesCaller(deleted, p, nickname, state, oldKey);
    var r := SetNicknameByState(UpdateStateByState(deleted, oldKey, Some(state)), Some(nickname), oldKey).value;
    assert SetNicknameOutcome(rows, Some(nickname), state) == Effect(Success(false), r);
    SetNicknameKeepsUnique(rows, Some(nickname), state);
    forall i | 0 <= i < |rows| && i != c && i != o ensures rows[i] in r {
      var q :| 0 <= q < |deleted| && q != p && deleted[q] == rows[i];
      assert r[q] == rows[i];
    }
  }

  class Model {
    /** The rows of `authorizations`, in query order. */
    var rows: seq<Row>

    ghost predicate Valid()
      reads this
    {
      NicknamesUnique(rows)
    }

    /** Opening the database: `create table if not exists` keeps the rows already there. */
    constructor (existing: seq<Row>)
      requires NicknamesUnique(existing)
      ensures Valid() && rows == existing
    {
      rows := existing;
    }

    method AuthInit(verifier: string, state: string, now: int)
      requires Valid()
      modifies this
      ensures Valid() && rows == InsertAuthInit(old(rows), verifier, state, now)
    {
      rows := InsertAuthInit(rows, verifier, state, now);
    }

    /** The verifier of the first row with that state; KeyError when there is none. */
    method GetVerifier(state: string) returns (r: Result<string, Exc>)
      ensures r.Success? <==> !NoneMatch(rows, Some(state))
      ensures r.Success? ==> r.value == rows[FirstMatch(rows, Some(state))].verifier
      ensures r.Failure? ==> r.error == KeyError("No state in DB found")
    {
      var row := SelectAllByState(rows, Some(state));
      if row.None? {
        return Failure(KeyError("No state in DB found"));
      }
      return Success(row.value.verifier);
    }

    method SetCode(code: string, state: string)
      requires Valid()
      modifies this
      ensures Valid() && rows == SetCodeState(old(rows), code, Some(state))
    {
      rows := SetCodeState(rows, code, Some(state));
    }

    method DeleteRow(state: string)
      requires Valid()
      modifies this
      ensures Valid() && rows == DeleteByState(old(rows), Some(state))
    {
      DeleteKeepsNicknamesUnique(rows, Some(state));
      rows := DeleteByState(rows, Some(state));
    }

    method SetTokens(accessToken: string, refreshToken: string, expiresIn: int, tsGotExpiresIn: int, state: string)
      requires Valid()
      modifies this
      ensures Valid()
      ensures rows == SetTokensByState(old(rows), Tokens(accessToken, refreshToken, expiresIn), tsGotExpiresIn, Some(state))
    {
      rows := SetTokensByState(rows, Tokens(accessToken, refreshToken, expiresIn), tsGotExpiresIn, Some(state));
    }

    /** True when the nickname was stored as is, False when the row was merged into the older one. */
    method SetNickname(nickname: Option<string>, state: string) returns (r: Result<bool, Exc>)
      requires Valid()
      modifies this
      ensures Valid()
      ensures Effect(r, rows) == SetNicknameOutcome(old(rows), nickname, state)
    {
      var upd := SetNicknameByState(rows, nickname, Some(state));
      if upd.Success? {
        rows := upd.value;
        return Success(true);
      }
      // sqlite3.IntegrityError: migrate the new data to the old state
      ghost var before := rows;
      var stateToSet := GetStateByNickname(nickname.value);
      if stateToSet.Some? {
        DeleteRow(stateToSet.value);
      }  // `where state = NULL` deletes nothing
      SetNewState(stateToSet, state);
      assert rows == UpdateStateByState(DeleteByState(before, stateToSet), stateToSet, Some(state));
      var last := SetNicknameByState(rows, nickname, stateToSet);
      if last.Failure? {
        return Failure(last.error);
      }
      SetNicknameByStateKeepsUnique(rows, nickname, stateToSet);
      rows := last.value;
      return Success(false);
    }

    method GetStateByNickname(nickname: string) returns (r: Option<string>)
      ensures r == StateByNickname(rows, nickname)
    {
      r := StateByNickname(rows, nickname);
    }

    /** Renames the rows keyed `oldState` to `newState` (note the argument order). */
    method SetNewState(newState: Option<string>, oldState: string)
      requires Valid()
      modifies this
      ensures Valid() && rows == UpdateStateByState(old(rows), newState, Some(oldState))
    {
      rows := UpdateStateByState(rows, newState, Some(oldState));
    }

    method GetRow(state: string) returns (r: Option<Row>)
      ensures r == SelectAllByState(rows, Some(state))
    {
      r := SelectAllByState(rows, Some(state));
    }

    method IncrementRefreshTries(state: string)
      requires Valid()
      modifies this
      ensures Valid() && rows == RefreshTimesIncrement(old(rows), Some(state))
    {
      rows := RefreshTimesIncrement(rows, Some(state));
    }

    method GetTokenForUser(state: string) returns (r: Option<TokenView>)
      ensures r == Sql.GetTokenForUser(rows, Some(state))
    {
      r := Sql.GetTokenForUser(rows, Some(state));
    }

    method ListAllRecords() returns (r: seq<Listing>)
      ensures r == SelectNicknameStateAll(rows)
    {
      r := SelectNicknameStateAll(rows);
    }
  }
}
