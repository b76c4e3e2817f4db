# FDEV-CAPI-Handler token store, modelled in Dafny

FDEV-CAPI-Handler brokers OAuth2 authorization-code exchanges with PKCE against
Frontier's identity provider. It keeps the resulting token pairs in one SQLite
table, `authorizations`. Each row is keyed by the opaque `state` of the flow that
created it, and the tokens are refreshed on demand.

This project models the following parts of the system:

- **The table** (`capi/sqlite_requests.py`, module `Sql`). It is a sequence of rows
  in query order. Each statement becomes a function on that sequence with
  SQLite's semantics:
  - a NULL state never matches `state = ?`;
  - an UPDATE or DELETE acts on every matching row;
  - `fetchone` returns the first matching row;
  - the UNIQUE constraint on `nickname` becomes an explicit `IntegrityError`
    failure.
- **The `Model` object** (`capi/model.py`, module `Store`). It is a class whose
  `rows` field every setter reassigns. It includes the nickname merge of
  `set_nickname`: when the UNIQUE constraint fires, the row holding the nickname
  is deleted, the caller's row is renamed to that row's state, and the nickname is
  set there.
- **The `CAPIAuthorizer` flows** (`capi/__init__.py`, module `Authorizer`):
  `auth_init`, `fdev_callback`, `get_token_by_state`, `refresh_by_state` and the
  pass-throughs. Each flow is a pure function that returns the result (or the
  exception) together with the table afterwards. A method of the
  `CAPIAuthorizer` class runs the same steps on the `Model` object and is proved
  to agree with that function.
- **The PKCE challenge** (`capi/utils.py`, module `Challenge`). This is the S256
  method of section 4.2 of RFC 7636: the base64url alphabet of section 5 of
  RFC 4648 over a SHA-256 digest, with the trailing `=` dropped. The model
  includes a decoder and the round trip `decode(encode(b)) == b`.
- **The legacy variants**:
  - `refresher.py` (module `Refresher`): no safety margin, no try counter, and
    the row is deleted on a failure after the response arrived.
  - `main.py`'s Falcon resources (module `LegacyApi`): a nickname conflict drops
    the new row instead of merging.

Interaction with the outside world becomes parameters:

- the provider's answers are `HttpResult` values: a connection failure, a
  failure of the request itself, or a status with a body that is not JSON, lacks
  a key, or carries the tokens;
- the profile and FID lookups are `Option` values;
- the clock is one `now` per call;
- `os.urandom` output is two 32-byte inputs;
- SHA-256 is an uninterpreted function onto 32-byte digests.

In a few places the documented behaviour and the code disagree. The model
follows the code in each case:

- **Which unique field merges.** The merge happens in `set_nickname`, on the
  nickname UNIQUE constraint (capi/model.py:76-91). FID binding (`set_fid`,
  `get_state_by_fid`) is called from capi/__init__.py:91-97, but it is defined
  outside capi/model.py.
- **Which data survives a merge.** The row that holds the nickname is the one
  deleted. The caller's row, with its just-obtained tokens, takes over the old
  `state` (`Store.MergeMovesRowToOldState`).
- **The 418 maintenance answer in `refresh_by_state`.** It builds its exception
  from `msg['message']`, a key that dict does not have, so a `KeyError` is
  raised. The generic handler catches it and counts a failure like any other
  (`Authorizer.MaintenanceIsOrdinaryFailure`).
- **When a failing row is removed.** The limit is compared with `refresh_tries`
  as read before the increment. Starting from 0, the sixth consecutive failure
  removes the row, not the fifth (`Authorizer.SixthFailureRemovesRow`).
- **The freshness test.** It is a strict `<`, so with `expires_in = 1000` a
  refresh proceeds at exactly 600 seconds after issue
  (`Authorizer.FreshnessBoundary`).

## Model

| member | source | states |
|---|---|---|
| Sql.FreshRow | capi/sqlite_requests.py:1-17 | a new row carries only verifier, state and `timestamp_init`; code, tokens, expiry, nickname are NULL and `refresh_tries` is 0 |
| Sql.InsertAuthInit | capi/sqlite_requests.py:14-17 | appends exactly one fresh row and leaves every earlier row in place; nickname uniqueness is kept |
| Sql.SelectAllByState | capi/sqlite_requests.py:19 | None exactly when no row has the state; otherwise the first row in query order that has it |
| Sql.SetCodeState | capi/sqlite_requests.py:21 | only rows with the state change, and only their code; no match means no change |
| Sql.DeleteByState | capi/sqlite_requests.py:23 | the result holds all and only the rows without the state, and shrinks by the number of matches |
| Sql.DeleteLeavesNone | capi/sqlite_requests.py:23 | after the delete no row has the state |
| Sql.DeleteKeepsOtherRow | capi/sqlite_requests.py:23 | a row with another state survives the delete |
| Sql.DeleteKeepsNicknamesUnique | capi/sqlite_requests.py:23 | deleting rows keeps non-NULL nicknames pairwise distinct |
| Sql.SetTokensByState | capi/sqlite_requests.py:25-32 | matching rows get the new access/refresh tokens, expiry and timestamp and `refresh_tries` 0; nothing else changes |
| Sql.SetNicknameByState | capi/sqlite_requests.py:34 | fails with IntegrityError exactly when two rows would hold the nickname afterwards; otherwise only the nickname of matching rows changes |
| Sql.SetNicknameByStateKeepsUnique | capi/sqlite_requests.py:10 | an accepted nickname update keeps non-NULL nicknames pairwise distinct |
| Sql.NicknameUpdateKeepsUnique | capi/sqlite_requests.py:10 | an update the UNIQUE constraint would accept leaves nicknames pairwise distinct |
| Sql.SelectStateByNickname | capi/sqlite_requests.py:36 | no result exactly when no row holds the nickname; a result is the state of a row holding it |
| Sql.UpdateStateByState | capi/sqlite_requests.py:38 | only the state column of matching rows changes; nicknames are untouched |
| Sql.RefreshTimesIncrement | capi/sqlite_requests.py:40 | `refresh_tries` of matching rows grows by exactly 1 and nothing else changes |
| Sql.GetTokenForUser | capi/sqlite_requests.py:42-46 | None exactly when no row has the state; otherwise that row's access token and nickname with `expires_on = timestamp_got_expires_in + expires_in` |
| Sql.SelectNicknameStateAll | capi/sqlite_requests.py:48 | lists exactly the (nickname, state) pairs of rows whose nickname is not NULL |
| Store.Model.constructor | capi/model.py:11-15 | opening the database keeps the rows already there |
| Store.Model.AuthInit | capi/model.py:17-24 | the table becomes the old table plus one fresh row; uniqueness is kept |
| Store.Model.GetVerifier | capi/model.py:26-35 | the verifier of the first row with the state, or KeyError "No state in DB found" exactly when none has it |
| Store.Model.SetCode | capi/model.py:37-39 | the table becomes `set_code_state` applied to the old table |
| Store.Model.DeleteRow | capi/model.py:41-43 | the table becomes `delete_by_state` applied to the old table |
| Store.Model.SetTokens | capi/model.py:45-57 | the table becomes `set_tokens_by_state` applied to the old table |
| Store.Model.SetNickname | capi/model.py:59-91 | result and new table are those of `SetNicknameOutcome` on the old table; nickname uniqueness is kept |
| Store.SetNicknameOutcome | capi/model.py:59-91 | without a conflict: True, and only the caller's rows change, in their nickname; with a conflict the result is never True |
| Store.SetNicknameKeepsUnique | capi/model.py:59-91 | in both branches of `set_nickname`, non-NULL nicknames stay pairwise distinct |
| Store.MergeFindsHolder | capi/model.py:76-83 | a nickname held by a row with another state makes the update conflict, and the lookup finds that row's state |
| Store.MergeDeletesHolder | capi/model.py:83-84 | deleting the holder's state removes exactly that row; the caller's row and every bystander survive |
| Store.MergeRenamesCaller | capi/model.py:85-90 | renaming the caller's row to the old state and then setting the nickname succeeds and touches only that row |
| Store.MergeMovesRowToOldState | capi/model.py:76-91 | a conflict returns False, drops one row, and leaves the caller's row (its tokens) as the only row under the old state with the nickname; every other row survives and the new state is gone |
| Store.StateByNickname | capi/model.py:93-100 | None when no row holds the nickname; a result is the state of a row holding it |
| Store.StateByNicknameFindsHolder | capi/model.py:93-100 | with nicknames unique, the lookup returns the state of the row holding the nickname |
| Store.Model.GetStateByNickname | capi/model.py:93-100 | returns `StateByNickname` of the current table |
| Store.Model.SetNewState | capi/model.py:102-104 | the table becomes `update_state_by_state` applied to the old table |
| Store.Model.GetRow | capi/model.py:106-107 | returns the first row with the state, or None |
| Store.Model.IncrementRefreshTries | capi/model.py:109-111 | the table becomes `refresh_times_increment` applied to the old table |
| Store.Model.GetTokenForUser | capi/model.py:113-114 | returns the token view of the first row with the state |
| Store.Model.ListAllRecords | capi/model.py:116-117 | returns exactly the nicknamed rows' (nickname, state) pairs |
| Authorizer.ReadTokens | capi/__init__.py:57-74 | tokens exactly when a non-error response carries all three keys; a connection failure gives ConnectionError and an error status gives HTTPError |
| Authorizer.RefreshOutcome | capi/__init__.py:117-195 | an absent state gives RefreshFail "No such state in DB" and no change; success is status 'ok' for that state; every RefreshFail has status 'error' |
| Authorizer.FreshTokenIsNotRefreshed | capi/__init__.py:137-143 | "not required" is answered exactly when `now < ts + expires_in - 400` and no force, and then the table is unchanged |
| Authorizer.FreshnessBoundary | capi/__init__.py:137-143 | with expiry 1000, 599 seconds after issue is skipped and 600 seconds after issue is not |
| Authorizer.SuccessfulRefreshResetsTries | capi/__init__.py:155-165 | a due refresh that gets tokens stores them with timestamp `now`, resets `refresh_tries` to 0, touches only that state's rows and answers 'ok' |
| Authorizer.ConnectionErrorKeepsRow | capi/__init__.py:167-171 | a connection failure raises "Connection Error" and leaves the table, `refresh_tries` included, unchanged |
| Authorizer.MaintenanceIsOrdinaryFailure | capi/__init__.py:147-151 | a 418 answer has the same outcome as any failed request |
| Authorizer.GenericFailureCountsOrRemoves | capi/__init__.py:173-195 | a failure adds 1 to `refresh_tries` and says "Try later", unless intolerant with at least 5 earlier tries, when the row is deleted |
| Authorizer.FailureBudget | capi/__init__.py:186-195 | five intolerant failures in a row keep the row and add exactly 5 tries to it |
| Authorizer.SixthFailureRemovesRow | capi/__init__.py:186-195 | the sixth intolerant failure in a row deletes the row |
| Authorizer.RefreshTwiceWithinMargin | capi/__init__.py:137-165 | after a successful refresh, an unforced refresh before the new token is within the margin of expiry answers "not required", whatever the provider would say, and changes nothing |
| Authorizer.GetTokenOutcome | capi/__init__.py:101-115 | the table effect is that of a tolerant, unforced refresh; a report has `expires_over = expires_on - now` |
| Authorizer.ReportAfterRefresh | capi/__init__.py:108-115 | reading the row after a refresh changes nothing and reports `expires_over = expires_on - now` |
| Authorizer.GetTokenSwallowsRefreshFail | capi/__init__.py:101-106 | a RefreshFail becomes a None answer; any other exception escapes |
| Authorizer.RefreshSuccessKeepsRow | capi/__init__.py:135-165 | after a successful refresh the row is still first under its state and has an expiry |
| Authorizer.GetTokenReportsExpiry | capi/__init__.py:108-115 | after a successful refresh the answer is the row's token and nickname with `expires_on = ts + expires_in` and `expires_over = expires_on - now` |
| Authorizer.CallbackOutcome | capi/__init__.py:47-99 | a successful callback had a FID and answers 'ok' with the state found for that FID |
| Authorizer.FinishCallback | capi/__init__.py:79-99 | the table ends as `set_nickname` leaves it; once `set_nickname` returned, a missing FID raises NoFID for the caller's state; success needs a FID |
| Authorizer.CallbackRefusesUnknownState | capi/__init__.py:48-51 | a missing code or state raises TypeError, and an unknown state raises KeyError, both with the table unchanged |
| Authorizer.CallbackExchangeFailureKeepsRow | capi/__init__.py:53-68 | a failed exchange re-raises its exception after storing the code, and the row stays |
| Authorizer.CallbackStoresTokens | capi/__init__.py:70-77 | an exchange that yields tokens stores code and tokens on exactly that state's rows, with tries reset, before the nickname step |
| Authorizer.CallbackKeepsUnique | capi/__init__.py:77-80 | every callback outcome keeps nicknames pairwise distinct |
| Authorizer.CallbackNoFIDAfterStoring | capi/__init__.py:77-87 | with no FID and a free (or absent) nickname, the callback raises NoFID after code, tokens and nickname are already stored on that state's rows |
| Authorizer.CallbackNoFIDAfterMerge | capi/__init__.py:77-87 | with no FID and a nickname held by another state's row, NoFID is raised after the merge: one row fewer, the caller's row with code, tokens and nickname now under the holder's state, and the caller's state gone |
| Authorizer.AuthInitChallengeMatchesVerifier | capi/__init__.py:29-33 | the stored verifier hashes to the challenge sent, and the challenge decodes back to that digest |
| Authorizer.CAPIAuthorizer.constructor | capi/__init__.py:19-20 | the authorizer works on the given model |
| Authorizer.CAPIAuthorizer.AuthInit | capi/__init__.py:22-45 | inserts one fresh row keyed by the encoded random state and returns the URL carrying the challenge of the stored verifier |
| Authorizer.CAPIAuthorizer.FdevCallback | capi/__init__.py:47-99 | result and new table are those of `CallbackOutcome` |
| Authorizer.CAPIAuthorizer.GetTokenByState | capi/__init__.py:101-115 | result and new table are those of `GetTokenOutcome` |
| Authorizer.CAPIAuthorizer.RefreshByState | capi/__init__.py:117-195 | result and new table are those of `RefreshOutcome` |
| Authorizer.CAPIAuthorizer.DeleteByState | capi/__init__.py:197-198 | removes exactly the rows with the state |
| Authorizer.CAPIAuthorizer.ListAllRecords | capi/__init__.py:206-207 | lists the nicknamed rows' (nickname, state) pairs |
| Challenge.Base64UrlEncode | capi/utils.py:84 | the encoding of n bytes has 4 * ceil(n / 3) symbols |
| Challenge.DecodeEncode | capi/utils.py:84 | decoding the encoding of any byte string gives that string back |
| Challenge.EncodingShape | capi/utils.py:84 | every symbol is URL-safe except the trailing padding, which is as long as the last group needs |
| Challenge.DigestEncodingShape | capi/utils.py:84 | a 32-byte digest encodes to 44 symbols: 43 URL-safe ones and one `=` |
| Challenge.DropLast | capi/utils.py:84 | `[:-1]` removes exactly the last symbol |
| Challenge.Base64UrlText | capi/__init__.py:29-31 | `.decode()` of the encoding is its ASCII text, character for byte |
| Challenge.GenerateChallenge | capi/utils.py:78-84 | the challenge has 43 characters, all from A-Z a-z 0-9 `-` `_`, none of them `=` |
| Challenge.ChallengeDecodesToDigest | capi/utils.py:84 | the challenge with its `=` put back decodes to SHA-256 of the verifier |
| Refresher.UpdateTokens | refresher.py:49-51 | matching rows get the new tokens, expiry and timestamp; their `refresh_tries` and everything else is kept |
| Refresher.NoMarginBeforeExpiry | refresher.py:23-24 | unforced, a token is left alone until `now >= ts + expires_in`, with no margin |
| Refresher.MaintenanceOrNonJsonChangesNothing | refresher.py:32-43 | a 418 answer or a body that is not JSON leaves the table unchanged |
| Refresher.DueTokenIsOverwritten | refresher.py:45-52 | a due token with a token answer is overwritten on exactly that state's rows, with timestamp `now` |
| Refresher.MissingKeyDeletesRow | refresher.py:45-60 | an answer lacking a key deletes every row with the state and re-raises the KeyError |
| Refresher.EarlyFailureKeepsRow | refresher.py:19-57 | a missing row, a NULL expiry or a failed post raises before the response is bound and deletes nothing |
| Refresher.RefreshOneKeepsUnique | refresher.py:15-60 | every outcome of one refresh keeps nicknames pairwise distinct |
| Refresher.RefreshOneSuccessKeepsRow | refresher.py:15-52 | after a successful refresh the row is still first under its state and has an expiry |
| Refresher.MaintenanceSweepChangesNothing | refresher.py:64-71 | a sweep during maintenance leaves the table unchanged |
| Refresher.RefreshEachKeepsUnique | refresher.py:64-71 | a whole sweep keeps nicknames pairwise distinct |
| Refresher.RefreshOneToken | refresher.py:15-61 | result and new table are those of `RefreshOneOutcome` |
| Refresher.RefreshAllSuitableTokens | refresher.py:64-71 | reads the state of every stored row once, in query order, then refreshes each of them in that order and stops at the first exception (`RefreshEach`) |
| LegacyApi.RedirectOutcome | main.py:96-165 | a blank code or state, or an unknown state, raises BadRequest with the table unchanged |
| LegacyApi.StoredTokens | main.py:112-139 | code, tokens, expiry and timestamp land on exactly that state's rows; the states and nicknames of all rows are kept |
| LegacyApi.StoredTokensDeleteLikeRows | main.py:153-162 | deleting the state after storing tokens leaves the same table as deleting it before |
| LegacyApi.RedirectStoresTokens | main.py:129-139 | a 200 token answer stores the tokens and then runs the nickname step |
| LegacyApi.StoreNickname | main.py:141-165 | the nickname step never raises, and unless it reports success it deletes the state's rows |
| LegacyApi.RedirectNon200DeletesRow | main.py:113-127 | a non-200 token answer deletes the row and raises BadRequest with the error id |
| LegacyApi.RedirectWithoutNicknameDeletesRow | main.py:158-162 | a failed profile read deletes the row and shows the error id |
| LegacyApi.ConflictReportsHolder | main.py:146-156 | a nickname already held elsewhere deletes the new row and reports the holder's state |
| LegacyApi.StoredConflictDropsNewRow | main.py:146-156 | after storing tokens, a conflict leaves the table as it was minus the new row |
| LegacyApi.RedirectConflictDropsNewRow | main.py:141-156 | the whole redirect with a conflict drops the new row, keeps the holder's row untouched and reports its state |
| LegacyApi.StoredFreeNickname | main.py:146-148 | a free nickname is set on the new row along with its tokens and nothing else changes |
| LegacyApi.RedirectStoresFreeNickname | main.py:141-164 | the whole redirect with a free nickname answers with the nickname and the original state |
| LegacyApi.UserGetOutcome | main.py:169-188 | an unknown state raises NotFound without refreshing; an answer has `expires_over = expires_on - now` |
| LegacyApi.UserGetReportsExpiry | main.py:176-186 | after a successful refresh the answer is the row's token and nickname with `expires_on = ts + expires_in` |
| LegacyApi.Authorize | main.py:77-92 | inserts one fresh row with the generated verifier, the state and `now`, and links to the URL with the S256 challenge |
| LegacyApi.FdevRedirect | main.py:96-165 | result and new table are those of `RedirectOutcome` |
| LegacyApi.UserGet | main.py:169-188 | result and new table are those of `UserGetOutcome` |
| LegacyApi.UserDelete | main.py:190-195 | removes exactly the rows with the state |

## Left out

- The provider's HTTP API is not part of this model. That covers `get_tokens_request`, `get_nickname`, `get_fid` and `refresh_request` in capi/utils.py, and the inline `requests` calls of main.py and refresher.py. Each answer is an `HttpResult` or `Option` parameter.
- `set_fid`, `get_state_by_fid`, `cleanup_orphans_records` and `list_all_valid_records` are called from capi/__init__.py but are not defined in capi/model.py, so they are not part of this model:
  - the FID lookup's outcome enters `CallbackOutcome` as parameters (`fidFresh`, `fidState`);
  - the FID column's effect on the table is not modelled;
  - `list_all_valid_users` and `cleanup_orphans` are not modelled.
- Falcon routing and waitress serving (web.py, main.py:222-230), `Admin.on_get`'s HTML, and the page templates are not modelled. Pages are modelled by what they say (`Page`, `UserInfo`).
- config.py and legacy/config.py are not modelled. The URL constants are an `AuthConfig` parameter.
- The migration script under scripts/ is not modelled: it is a one-off schema change plus network I/O.
- SHA-256 is an uninterpreted function onto 32-byte digests, and `os.urandom` output is input bytes. That `generate_challenge` gives equal challenges for equal verifiers holds because it is a function.
- `time.time()` is read once per call as `now`, although the source reads the clock several times within one call. The capi `timestamp_init` column's `current_timestamp` default is modelled as that same `now`.
- SQLite connections, transactions, `check_same_thread=False` and concurrent workers are not modelled. Every flow runs sequentially on one table.
- The text type of `expires_in` and timestamps is not modelled: they are integers, so the `int()` conversions cannot fail on malformed text.
- main.py's table has no `refresh_tries` column. The legacy flows use the same row type and never touch that field.
- Logging and the legacy flows' `print` calls are not modelled. The random error id of main.py is a parameter.
- capi/exceptions.py's classes are constructors of the `Exc` datatype.
- Store.MergeDeletesHolder: assumes pairwise distinct states, which the schema does not enforce. With duplicate states a merge deletes or renames several rows at once.
- Store.MergeMovesRowToOldState: assumes pairwise distinct states, for the same reason.
- Store.MergeRenamesCaller: assumes pairwise distinct states among the rows left after the delete, for the same reason.
- Authorizer.CallbackNoFIDAfterStoring: assumes pairwise distinct states. With duplicate states, even a free nickname conflicts, and the merge path runs. It also covers only a free or absent nickname. The held-nickname case is Authorizer.CallbackNoFIDAfterMerge. The case where the caller's own row already holds the nickname is stated only through Authorizer.FinishCallback.
- Authorizer.CallbackNoFIDAfterMerge: assumes pairwise distinct states, as the merge lemmas of `set_nickname` do.
- LegacyApi.StoredFreeNickname: assumes pairwise distinct states. With duplicate states the UNIQUE constraint fires even for a free nickname.
- LegacyApi.RedirectStoresFreeNickname: assumes pairwise distinct states, for the same reason.
