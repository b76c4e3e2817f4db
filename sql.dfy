/**
 * The `authorizations` table of capi/sqlite_requests.py and the row effect of
 * every statement the store runs on it. The table is a sequence of rows in
 * query order; `where state = :state` is `Matches`, an UPDATE is `UpdateWhere`
 * with its SET clause as a `SetClause`,
 * a DELETE is a filter and a `fetchone()` is the first matching row.
 */
module Sql {
  import opened Wrappers
  import opened Exceptions
  import opened Provider

  /** One row of `authorizations`; the nullable columns are `Option`s. */
  datatype Row = Row(
    verifier: string,           // code_verifier
    state: Option<string>,      // NULL only after a merge renamed rows to a missing key
    init: int,                  // timestamp_init
    code: Option<string>,
    access: Option<string>,     // access_token
    refresh: Option<string>,    // refresh_token
    expiresIn: Option<int>,     // expires_in
    ts: Option<int>,            // timestamp_got_expires_in
    nickname: Option<string>,
    refreshTries: nat)          // refresh_tries, default 0

  /** `state = :state`: an SQL comparison with NULL on either side is never true. */
  predicate Matches(row: Row, key: Option<string>) {
    key.Some? && row.state == key
  }

  predicate NoneMatch(rows: seq<Row>, key: Option<string>) {
    forall i | 0 <= i < |rows| :: !Matches(rows[i], key)
  }

  /** The schema's `nickname text unique`: non-NULL nicknames are pairwise distinct. */
  predicate NicknamesUnique(rows: seq<Row>) {
    forall i, j | 0 <= i < j < |rows| :: rows[i].nickname.Some? ==> rows[i].nickname != rows[j].nickname
  }

  /** Not enforced by the schema; lemmas that rely on it say so. */
  predicate StatesDistinct(rows: seq<Row>) {
    forall i, j | 0 <= i < j < |rows| :: rows[i].state.Some? ==> rows[i].state != rows[j].state
  }

  /** An UPDATE ... WHERE state = key leaves every other row as it was. */
  predicate OnlyMatchingChanged(rows: seq<Row>, r: seq<Row>, key: Option<string>) {
    |r| == |rows| && forall i | 0 <= i < |rows| && !Matches(rows[i], key) :: r[i] == rows[i]
  }

  /** The row `insert_auth_init` creates: only code_verifier and state are given. */
  function FreshRow(verifier: string, state: string, now: int): (row: Row)
    ensures row.verifier == verifier && row.state == Some(state) && row.init == now
    ensures row.code.None? && row.access.None? && row.refresh.None?
    ensures row.expiresIn.None? && row.ts.None? && row.nickname.None? && row.refreshTries == 0
  {
    Row(verifier, Some(state), now, None, None, None, None, None, None, 0)
  }

  /** `insert_auth_init`: one row appended, the others untouched. */
  function InsertAuthInit(rows: seq<Row>, verifier: string, state: string, now: int): (r: seq<Row>)
    ensures |r| == |rows| + 1 && r[..|rows|] == rows
    ensures r[|rows|] == FreshRow(verifier, state, now)
    ensures NicknamesUnique(rows) ==> NicknamesUnique(r)
  {
    rows + [FreshRow(verifier, state, now)]
  }

  /** Index of the row `fetchone()` returns for `where state = key`, or |rows| when there is none. */
  function FirstMatch(rows: seq<Row>, key: Option<string>): (k: nat)
    ensures k <= |rows|
    ensures k < |rows| ==> Matches(rows[k], key)
    ensures forall j | 0 <= j < k :: !Matches(rows[j], key)
  {
    if rows == [] then 0
    else if Matches(rows[0], key) then 0
    else 1 + FirstMatch(rows[1..], key)
  }

  /** `select_all_by_state` followed by `fetchone()`. */
  function SelectAllByState(rows: seq<Row>, key: Option<string>): (r: Option<Row>)
    ensures r.None? <==> NoneMatch(rows, key)
    ensures r.Some? ==> FirstMatch(rows, key) < |rows| && r.value == rows[FirstMatch(rows, key)]
    ensures r.Some? ==> Matches(r.value, key)
  {
    var k := FirstMatch(rows, key);
    if k < |rows| then Some(rows[k]) else None
  }

  /** Index of the first row holding `nickname`, or |rows|. */
  function FirstHolder(rows: seq<Row>, nickname: string): (k: nat)
    ensures k <= |rows|
    ensures k < |rows| ==> rows[k].nickname == Some(nickname)
    ensures forall j | 0 <= j < k :: rows[j].nickname != Some(nickname)
  {
    if rows == [] then 0
    else if rows[0].nickname == Some(nickname) then 0
    else 1 + FirstHolder(rows[1..], nickname)
  }

  /** `get_state_by_nickname` followed by `fetchone()`: no row, or the state cell of the holder. */
  function SelectStateByNickname(rows: seq<Row>, nickname: string): (r: Option<Option<string>>)
    ensures r.None? <==> forall i | 0 <= i < |rows| :: rows[i].nickname != Some(nickname)
    ensures r.Some? ==> exists i | 0 <= i < |rows| :: rows[i].nickname == Some(nickname) && rows[i].state == r.value
  {
    var k := FirstHolder(rows, nickname);
    if k < |rows| then Some(rows[k].state) else None
  }

  /** The SET clause of an UPDATE on `authorizations`. */
  datatype SetClause =
    | SetCode(code: string)
    | SetTokens(tokens: Tokens, ts: int)             // also sets refresh_tries = 0
    | SetTokensKeepTries(tokens: Tokens, ts: int)    // the four token columns only
    | BumpTries                                      // refresh_tries = refresh_tries + 1
    | SetState(newState: Option<string>)
    | SetNickname(nickname: Option<string>)

  /** One row after the SET clause. */
  function Assign(row: Row, c: SetClause): Row {
    match c
    case SetCode(code) => row.(code := Some(code))
    case SetTokens(t, ts) =>
      row.(access := Some(t.access), refresh := Some(t.refresh), expiresIn := Some(t.expiresIn), ts := Some(ts), refreshTries := 0)
    case SetTokensKeepTries(t, ts) =>
      row.(access := Some(t.access), refresh := Some(t.refresh), expiresIn := Some(t.expiresIn), ts := Some(ts))
    case BumpTries => row.(refreshTries := row.refreshTries + 1)
    case SetState(s) => row.(state := s)
    case SetNickname(n) => row.(nickname := n)
  }

  /** The generic `update authorizations set c where state = key`. */
  function UpdateWhere(rows: seq<Row>, key: Option<string>, c: SetClause): (r: seq<Row>)
    ensures |r| == |rows|
    ensures forall i | 0 <= i < |rows| :: r[i] == (if Matches(rows[i], key) then Assign(rows[i], c) else rows[i])
  {
    seq(|rows|, i requires 0 <= i < |rows| => if Matches(rows[i], key) then Assign(rows[i], c) else rows[i])
  }

  /** `set_code_state`: only `code` of the matching rows changes; a silent no-op when none matches. */
  function SetCodeState(rows: seq<Row>, code: string, key: Option<string>): (r: seq<Row>)
    ensures OnlyMatchingChanged(rows, r, key)
    ensures forall i | 0 <= i < |rows| && Matches(rows[i], key) :: r[i] == rows[i].(code := Some(code))
    ensures NoneMatch(rows, key) ==> r == rows
    ensures SameStates(rows, r) && SameNicknames(rows, r)
  {
    UpdateWhere(rows, key, SetCode(code))
  }

  /**
   * `set_tokens_by_state`: overwrites the two tokens, the lifetime and the
   * time it was obtained, and resets `refresh_tries` to 0, in matching rows only.
   */
  function SetTokensByState(rows: seq<Row>, t: Tokens, ts: int, key: Option<string>): (r: seq<Row>)
    ensures OnlyMatchingChanged(rows, r, key)
    ensures forall i | 0 <= i < |rows| && Matches(rows[i], key) ::
      r[i] == rows[i].(access := Some(t.access), refresh := Some(t.refresh),
                       expiresIn := Some(t.expiresIn), ts := Some(ts), refreshTries := 0)
    ensures NoneMatch(rows, key) ==> r == rows
    ensures SameStates(rows, r) && SameNicknames(rows, r)
  {
    UpdateWhere(rows, key, SetTokens(t, ts))
  }

  /** `refresh_times_increment`: exactly one more try on each matching row. */
  function RefreshTimesIncrement(rows: seq<Row>, key: Option<string>): (r: seq<Row>)
    ensures OnlyMatchingChanged(rows, r, key)
    ensures forall i | 0 <= i < |rows| && Matches(rows[i], key) ::
      r[i] == rows[i].(refreshTries := rows[i].refreshTries + 1)
    ensures NoneMatch(rows, key) ==> r == rows
    ensures SameStates(rows, r) && SameNicknames(rows, r)
  {
    UpdateWhere(rows, key, BumpTries)
  }

  /** `update_state_by_state`: only the state column of the matching rows changes. */
  function UpdateStateByState(rows: seq<Row>, newState: Option<string>, key: Option<string>): (r: seq<Row>)
    ensures OnlyMatchingChanged(rows, r, key)
    ensures forall i | 0 <= i < |rows| && Matches(rows[i], key) :: r[i] == rows[i].(state := newState)
    ensures NoneMatch(rows, key) ==> r == rows
    ensures SameNicknames(rows, r)
  {
    UpdateWhere(rows, key, SetState(newState))
  }

  /** After `set nickname = n where state = key`, this row holds n. */
  predicate HoldsAfter(row: Row, nickname: string, key: Option<string>) {
    Matches(row, key) || row.nickname == Some(nickname)
  }

  /** The update would give two rows the same nickname: SQLite raises IntegrityError. */
  predicate Conflicts(rows: seq<Row>, nickname: string, key: Option<string>) {
    exists i, j | 0 <= i < j < |rows| :: HoldsAfter(rows[i], nickname, key) && HoldsAfter(rows[j], nickname, key)
  }

  /**
   * `set_nickname_by_state`. The statement is aborted, leaving the table as it
   * was, when the UNIQUE constraint would be violated; a NULL nickname never is.
   */
  function SetNicknameByState(rows: seq<Row>, nickname: Option<string>, key: Option<string>): (r: Result<seq<Row>, Exc>)
    ensures r.Failure? <==> nickname.Some? && Conflicts(rows, nickname.value, key)
    ensures r.Failure? ==> r.error == IntegrityError
    ensures r.Success? ==> OnlyMatchingChanged(rows, r.value, key)
    ensures r.Success? ==> forall i | 0 <= i < |rows| && Matches(rows[i], key) ::
      r.value[i] == rows[i].(nickname := nickname)
    ensures r.Success? ==> SameStates(rows, r.value)
  {
    if nickname.Some? && Conflicts(rows, nickname.value, key) then Failure(IntegrityError)
    else Success(UpdateWhere(rows, key, SetNickname(nickname)))
  }

  /** A nickname update that goes through keeps non-NULL nicknames pairwise distinct. */
  lemma SetNicknameByStateKeepsUnique(rows: seq<Row>, nickname: Option<string>, key: Option<string>)
    requires NicknamesUnique(rows)
    ensures SetNicknameByState(rows, nickname, key).Success? ==> NicknamesUnique(SetNicknameByState(rows, nickname, key).value)
  {
    if SetNicknameByState(rows, nickname, key).Success? {
      NicknameUpdateKeepsUnique(rows, nickname, key);
    }
  }

  /** Without a conflict, giving the matching rows one nickname keeps nicknames unique. */
  lemma NicknameUpdateKeepsUnique(rows: seq<Row>, nickname: Option<string>, key: Option<string>)
    requires nickname.None? || !Conflicts(rows, nickname.value, key)
    ensures var r := UpdateWhere(rows, key, SetNickname(nickname));
      NicknamesUnique(rows) ==> NicknamesUnique(r)
  {
    var r := UpdateWhere(rows, key, SetNickname(nickname));
    if NicknamesUnique(rows) {
      forall i, j | 0 <= i < j < |rows| && r[i].nickname.Some?
        ensures r[i].nickname != r[j].nickname
      {
        if r[i].nickname == r[j].nickname {
          if nickname.Some? && r[i].nickname == nickname {
            assert HoldsAfter(rows[i], nickname.value, key) && HoldsAfter(rows[j], nickname.value, key);
          }
        }
      }
    }
  }

  /** Number of rows matching `key`. */
  function MatchCount(rows: seq<Row>, key: Option<string>): (n: nat)
    ensures n <= |rows|
    ensures n == 0 <==> NoneMatch(rows, key)
  {
    if rows == [] then 0
    else (if Matches(rows[0], key) then 1 else 0) + MatchCount(rows[1..], key)
  }

  /** `delete_by_state`: removes all and only the matching rows, keeping the others in order. */
  function DeleteByState(rows: seq<Row>, key: Option<string>): (r: seq<Row>)
    ensures forall x :: x in r <==> x in rows && !Matches(x, key)
    ensures |r| == |rows| - MatchCount(rows, key)
    ensures NoneMatch(rows, key) ==> r == rows
  {
    if rows == [] then []
    else if Matches(rows[0], key) then DeleteByState(rows[1..], key)
    else [rows[0]] + DeleteByState(rows[1..], key)
  }

  /** A row of another state survives the delete. */
  lemma DeleteKeepsOtherRow(rows: seq<Row>, key: Option<string>, i: nat)
    requires i < |rows| && !Matches(rows[i], key)
    ensures rows[i] in DeleteByState(rows, key)
  {
  }

  /** Every row the delete keeps from `rows[1..]` is one of those rows. */
  lemma KeptFromTail(rows: seq<Row>, key: Option<string>, x: Row) returns (k: nat)
    requires rows != [] && x in DeleteByState(rows[1..], key)
    ensures 0 < k < |rows| && rows[k] == x
  {
    assert x in rows[1..];
    var m :| 0 <= m < |rows| - 1 && rows[1..][m] == x;
    k := m + 1;
  }

  /** A row whose nickname no row of `rest` holds can be put in front of `rest`. */
  lemma ConsKeepsNicknamesUnique(head: Row, rest: seq<Row>)
    requires NicknamesUnique(rest)
    requires forall x | x in rest :: head.nickname.Some? ==> x.nickname != head.nickname
    ensures NicknamesUnique([head] + rest)
  {
    var r := [head] + rest;
    forall i, j | 0 <= i < j < |r| && r[i].nickname.Some? ensures r[i].nickname != r[j].nickname {
      assert r[j] == rest[j - 1];
      if i > 0 {
        assert r[i] == rest[i - 1];
      }
    }
  }

  /** A row whose state no row of `rest` has can be put in front of `rest`. */
  lemma ConsKeepsStatesDistinct(head: Row, rest: seq<Row>)
    requires StatesDistinct(rest)
    requires forall x | x in rest :: head.state.Some? ==> x.state != head.state
    ensures StatesDistinct([head] + rest)
  {
    var r := [head] + rest;
    forall i, j | 0 <= i < j < |r| && r[i].state.Some? ensures r[i].state != r[j].state {
      assert r[j] == rest[j - 1];
      if i > 0 {
        assert r[i] == rest[i - 1];
      }
    }
  }

  /** Deleting rows never breaks the UNIQUE constraint on nicknames. */
  lemma {:induction false} DeleteKeepsNicknamesUnique(rows: seq<Row>, key: Option<string>)
    requires NicknamesUnique(rows)
    ensures NicknamesUnique(DeleteByState(rows, key))
  {
    if rows != [] {
      var rest := DeleteByState(rows[1..], key);
      DeleteKeepsNicknamesUnique(rows[1..], key);
      if !Matches(rows[0], key) {
        forall x | x in rest ensures rows[0].nickname.Some? ==> x.nickname != rows[0].nickname {
          var k := KeptFromTail(rows, key, x);
        }
        ConsKeepsNicknamesUnique(rows[0], rest);
      }
    }
  }

  /** Deleting rows keeps distinct states distinct. */
  lemma {:induction false} DeleteKeepsStatesDistinct(rows: seq<Row>, key: Option<string>)
    requires StatesDistinct(rows)
    ensures StatesDistinct(DeleteByState(rows, key))
  {
    if rows != [] {
      var rest := DeleteByState(rows[1..], key);
      DeleteKeepsStatesDistinct(rows[1..], key);
      if !Matches(rows[0], key) {
        forall x | x in rest ensures rows[0].state.Some? ==> x.state != rows[0].state {
          var k := KeptFromTail(rows, key, x);
        }
        ConsKeepsStatesDistinct(rows[0], rest);
      }
    }
  }

  /** Two tables of the same length whose rows agree on `state`, index by index. */
  predicate SameStates(a: seq<Row>, b: seq<Row>) {
    |a| == |b| && forall i | 0 <= i < |a| :: a[i].state == b[i].state
  }

  /** Two tables of the same length whose rows agree on `nickname`, index by index. */
  predicate SameNicknames(a: seq<Row>, b: seq<Row>) {
    |a| == |b| && forall i | 0 <= i < |a| :: a[i].nickname == b[i].nickname
  }

  /** An update that leaves `nickname` alone keeps the UNIQUE constraint. */
  lemma SameNicknamesKeepUnique(a: seq<Row>, b: seq<Row>)
    requires SameNicknames(a, b) && NicknamesUnique(a)
    ensures NicknamesUnique(b)
  {
  }

  /** An update that leaves `state` alone keeps distinct states distinct. */
  lemma SameStatesKeepDistinct(a: seq<Row>, b: seq<Row>)
    requires SameStates(a, b) && StatesDistinct(a)
    ensures StatesDistinct(b)
  {
  }

  /** An update that leaves `state` alone does not change which row `fetchone()` returns. */
  lemma {:induction false} FirstMatchOfSameStates(a: seq<Row>, b: seq<Row>, key: Option<string>)
    requires SameStates(a, b)
    ensures FirstMatch(a, key) == FirstMatch(b, key)
  {
    if a != [] {
      assert SameStates(a[1..], b[1..]) by {
        forall i | 0 <= i < |a| - 1 ensures a[1..][i].state == b[1..][i].state {
          assert a[1..][i] == a[i + 1] && b[1..][i] == b[i + 1];
        }
      }
      FirstMatchOfSameStates(a[1..], b[1..], key);
    }
  }

  /** After the delete no row carries the deleted state. */
  lemma DeleteLeavesNone(rows: seq<Row>, key: Option<string>)
    ensures NoneMatch(DeleteByState(rows, key), key)
  {
    var r := DeleteByState(rows, key);
    forall i | 0 <= i < |r| ensures !Matches(r[i], key) {
      assert r[i] in r;
    }
  }

  /** Deleting the rows keyed `key` forgets whatever an update did to those rows. */
  lemma {:induction false} DeleteOfSameOthers(a: seq<Row>, b: seq<Row>, key: Option<string>)
    requires SameStates(a, b)
    requires forall i | 0 <= i < |a| && !Matches(a[i], key) :: a[i] == b[i]
    ensures DeleteByState(a, key) == DeleteByState(b, key)
  {
    if a != [] {
      assert forall i | 0 <= i < |a| - 1 :: a[1..][i] == a[i + 1] && b[1..][i] == b[i + 1];
      DeleteOfSameOthers(a[1..], b[1..], key);
    }
  }

  /** A view on the row `get_token_for_user` selects. */
  datatype TokenView = TokenView(access: Option<string>, expiresOn: Option<int>, nickname: Option<string>)

  /**
   * `get_token_for_user` followed by `fetchone()`: `expires_on` is
   * `timestamp_got_expires_in + expires_in`, NULL when either is NULL.
   */
  function GetTokenForUser(rows: seq<Row>, key: Option<string>): (r: Option<TokenView>)
    ensures r.None? <==> NoneMatch(rows, key)
    ensures r.Some? ==>
      var row := rows[FirstMatch(rows, key)];
      && r.value.access == row.access && r.value.nickname == row.nickname
      && (r.value.expiresOn.Some? <==> row.ts.Some? && row.expiresIn.Some?)
      && (r.value.expiresOn.Some? ==> r.value.expiresOn.value == row.ts.value + row.expiresIn.value)
  {
    match SelectAllByState(rows, key)
    case None => None
    case Some(row) =>
      Some(TokenView(row.access,
                     if row.ts.Some? && row.expiresIn.Some? then Some(row.ts.value + row.expiresIn.value) else None,
                     row.nickname))
  }

  /** One result row of `select_nickname_state_all`. */
  datatype Listing = Listing(nickname: string, state: Option<string>)

  /** Number of rows with a nickname. */
  function NamedCount(rows: seq<Row>): (n: nat)
    ensures n <= |rows|
  {
    if rows == [] then 0
    else (if rows[0].nickname.Some? then 1 else 0) + NamedCount(rows[1..])
  }

  /** `select_nickname_state_all`: one listing per row whose nickname is not NULL, in table order. */
  function SelectNicknameStateAll(rows: seq<Row>): (r: seq<Listing>)
    ensures |r| == NamedCount(rows)
    ensures forall x :: x in r <==>
      exists i | 0 <= i < |rows| :: rows[i].nickname == Some(x.nickname) && rows[i].state == x.state
  {
    if rows == [] then []
    else
      var rest := SelectNicknameStateAll(rows[1..]);
      assert forall i | 0 <= i < |rows| - 1 :: rows[1..][i] == rows[i + 1];
      if rows[0].nickname.Some? then [Listing(rows[0].nickname.value, rows[0].state)] + rest else rest
  }
}
