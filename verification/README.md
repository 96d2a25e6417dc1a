# Verified model of the Cashier SSH certificate authority

Cashier signs SSH user keys for people who log in through an OAuth provider, records every certificate it issues,
and publishes a revocation list. This project models the parts of it that are state machines or exact algorithms and
proves what they promise over all inputs, all runs and all interleavings. `dafny verify dfyconfig.toml` checks it.

| file | part of the system |
|---|---|
| `Lifecycle.dfy` | sign, record, revoke and publish over whole runs, on either store |
| `MemoryStore.dfy`, `SqlStore.dfy`, `StoreSimulation.dfy` | the two certificate stores and their equivalence |
| `RevokedScan.dfy`, `ServedList.dfy` | the memory store's GetRevoked under interference, and the list it serves during a run |
| `Signer.dfy`, `Records.dfy`, `KeyId.dfy` | clamp, validity window, permissions, stored form, key ids |
| `Base64.dfy`, `TokenTransport.dfy` | the way of an access token from the page to the /sign handler |
| `SignProtocol.dfy` | the /sign handler and the client's retry loop for a required reason |
| `LoginSession.dfy` | the browser login session |
| `Migrations.dfy` | the SQLite schema migrations, run by a statement interpreter |
| `GitLab.dfy` | the GitLab provider's configuration and decision |
| `ClientCache.dfy` | the HTTP client cache |
| `TokenHandoff.dfy`, `AgentInstall.dfy` | the command-line client's token handoff and agent lifetimes |
| `Common.dfy`, `Strings.dfy` | instants, and the string operations the source uses |

Conventions. Instants are nanoseconds since the epoch; `time.Now` becomes a sequence of non-decreasing readings.
Calls into the OAuth provider, the SSH library, the transport and the database driver become parameters that may
answer anything. A mutex-protected section is one atomic step. Go maps that are shared are objects; iteration over a
map takes its entries in any order.

Where the code differs from what one would expect, the code is followed:

- Two certificates for one user within one second have the same key id. The memory store then overwrites the older
  record and the table refuses the newer one, an error the handler only logs. `Lifecycle.MayReuse` is the exact
  condition under which no revocation can be lost that way; `Lifecycle.RepeatedSigningLosesRevocation` and
  `Lifecycle.RefusedRecordLosesRevocation` show a loss on each store.
- A requested expiry before the epoch is not clamped, and becomes a ValidBefore in the far future when it is made
  unsigned, while the record reads as long expired. A request without `valid_until` has such an expiry. The certificate
  is then not bounded by max_age (`Signer.ValidBeforeBoundedIff`, `Signer.MissingExpiryUnbounded`) and never on the
  revocation list (`Lifecycle.Timely`, `Lifecycle.MissingExpiryLosesRevocation`).
- A certificate installed in its last second gets a lifetime of zero, which to the agent means no limit:
  `AgentInstall.DroppedByValidBeforeIff`, `AgentInstall.LastSecondStays`.
- `memoryStore.Revoke` dereferences a missing record at an unknown id, after flagging the ids in front of it; the SQL
  store ignores unknown ids but refuses an empty list. `StoreSimulation.Admissible` is the exact condition under
  which the two stores cannot be told apart.
- The paste loop and the client's retry loop can run for ever: see `TokenTransport.PasteEndsIff` and
  `SignProtocol.LoopEndsIff`. The preconditions of `PasteLoop` and of the client's `Sign` are exactly those
  conditions.
- A token containing a space is cut at it by the server: `TokenTransport.TokenRoundTrip` is an equivalence.
- A permission value containing a second `=` is cut at it: `Signer.OptionValueWhole`.
- A callback is compared with the session's state even if there has been no login, when both are empty:
  `LoginSession.AnswersLoginIff`, `LoginSession.EmptyStateServed`.
- The reply of the local server may go to another browser request than the one whose token was used:
  `TokenHandoff.AnsweredIsDecodedIff`, `TokenHandoff.OtherRequestAnswered`.
- GitLab's whitelist test uses a user name fetched a second time; a failed second fetch yields the empty name:
  `GitLab.SecondFetchDecides`, `GitLab.FetchesDisagree`.
- The way down from version 3 creates its temporary table only if it does not exist; the rows of one left over are mixed
  in: `Migrations.LeftoverComesBack`.
- Tokens without an expiry are evicted from the client cache by every cleanup, since their zero expiry is in the past:
  `ClientCache.NoExpiryEvicted`.

## Model

| member | source | states |
|---|---|---|
| `Lifecycle.RunSafeIff` | server/handlers.go:69-81 | on either store, a run never leaves a state in which a revocation is or can become lost exactly when every signature in it has an expiry not before the epoch and meets `MayReuse`; then the list is exact; overlapping signatures included |
| `Lifecycle.SignSafeIff` | server/store/mem.go:29-34 | one signature keeps a safe state safe exactly when its expiry does not lie before the epoch and its key id is unused, or the record it displaces (memory) or fails to store (SQL) does not matter |
| `Lifecycle.SafeIffExact` | server/handlers.go:155-203 | safety is exactly: at all later times the list holds what it ought to by the certificates' own unsigned ValidBefore, and still does whichever certificate is revoked next |
| `Lifecycle.DistinctRunIsExact` | server/handlers.go:71-81 | if no user is signed twice in one second, the run is safe exactly when no expiry lies before the epoch; then at every later moment the list holds the key id of each certificate revoked so far and not past its ValidBefore, and no other |
| `Lifecycle.RevocationLasts` | server/store/mem.go:52-72 | a revoked certificate leaves the list only once past its ValidBefore, through any further guarded run |
| `Lifecycle.RunPublishesOnlyDue` | server/store/mem.go:62-72 | over every run at all, only certificates revoked earlier and unexpired are listed |
| `Lifecycle.UnsafeLoses` | server/store/mem.go:29-34 | without safety, a revocation is already missing or one further Revoke makes one missing |
| `Lifecycle.RepeatedSigningLosesRevocation` | server/signer/signer.go:66 | sign, revoke, sign within one second on the memory store is a run after which the revoked id is off the list |
| `Lifecycle.RefusedRecordLosesRevocation` | server/handlers.go:79-81 | a run with two signatures in one second on the SQL store: the refused one outlives the revoked row and is off the list |
| `Lifecycle.MissingExpiryLosesRevocation` | server/signer/signer.go:60-68 | on either store, a revoked certificate whose request named no expiry is never listed, though not past its ValidBefore |
| `Lifecycle.RevokeIsInOrder` | server/store/mem.go:52-60 | the run's revoke step is the memory store's Revoke |
| `Lifecycle.RevokeIsSqlUpdate` | server/store/sqldb.go:150-162 | on the SQL store the revoke step is the store's UPDATE |
| `Lifecycle.PutIsSetRecord` | server/handlers.go:77-81 | storing the record is the SetRecord of either store |
| `Lifecycle.PublishedIsGetRevoked` | server/signer/signer.go:81-89 | the published ids are the key ids of the rows GetRevoked selects on the SQL store; on the memory store, with a clock reading per record, its key ids lie between those published at the last and at the first reading |
| `Lifecycle.RevokeIsOneByOne` | server/store/mem.go:56-58 | a Revoke of several ids amounts to single ones, in order, of the ids it gets through |
| `ServedList.ServedListIsExact` | server/store/mem.go:62-72 | in every interleaving of the server with a scan, the list names only certificates revoked by its return and not past their ValidBefore at its start; after a guarded run, it names all that were revoked at its start and not past their ValidBefore at the listing's end, whatever is signed and revoked meanwhile |
| `ServedList.RunIsServed` | server/handlers.go:69-81 | the scan does not change what the server does |
| `ServedList.RunKeepsInv` | server/store/mem.go:29-34 | along every interleaving the objects filed in the store are the lifecycle's records, and every object ever stored belongs to an issued certificate |
| `StoreSimulation.StoresSimulate` | server/store/sqldb.go:113-174 | from equal contents, both stores give the same replies and keep equal contents along a run exactly when every step of it is admissible, with a clock reading per record on the memory store |
| `StoreSimulation.StoresSimulateFromEmpty` | server/store/store.go:26-33 | the same for every run from the empty stores |
| `StoreSimulation.StepAgrees` | server/store/sqldb.go:78-92 | one operation keeps state and reply in step exactly when it is a fresh unrevoked SetRecord, a non-empty Revoke of known ids, a Get, or a listing in which no record expires between the reading at which the memory store meets it and the query's reading |
| `StoreSimulation.MovingClockIff` | server/store/mem.go:38-50 | a clock moving during a listing never shows, for any order of the walk and any query time, exactly when no record expires in the interval |
| `StoreSimulation.ApplyMem` | server/store/mem.go:17-72 | each call on the memory store has the effect and the reply of the run's step |
| `StoreSimulation.ApplySql` | server/store/sqldb.go:112-174 | each call on the SQL store has the effect and the reply of the run's step |
| `RevokedScan.ScanIsExact` | server/store/mem.go:62-72 | in every interleaving the result has no duplicates and holds exactly the listed records whose flag was set when tested: every record stored and revoked before the scan and unexpired at its end, nothing not stored or expired at its start |
| `RevokedScan.RunKeepsInv` | server/store/mem.go:38-60 | the scan's invariant holds along every run, and flags only ever go up |
| `MemoryStore.Store.SetRecord` | server/store/mem.go:29-34 | files the record under its key id, replacing any other |
| `MemoryStore.Store.List` | server/store/mem.go:38-50 | no duplicates; exactly all records, or those unexpired at the reading that met them, which lies between the first and the last |
| `MemoryStore.Store.Revoke` | server/store/mem.go:53-60 | flags the ids in order and stops at an unknown one |
| `MemoryStore.Store.GetRevoked` | server/store/mem.go:63-72 | undisturbed, exactly the flagged records unexpired at the reading that met them |
| `MemoryStore.RevokeFlagsKnownPrefix` | server/store/mem.go:56-58 | exactly the records named in front of the first unknown id are flagged |
| `SqlStore.Store.Get` | server/store/sqldb.go:113-119 | the row with the key id, or none when there is no such row |
| `SqlStore.Store.SetRecord` | server/store/sqldb.go:122-128 | appends an unrevoked row, or refuses a repeated key id |
| `SqlStore.Store.List` | server/store/sqldb.go:132-147 | exactly the rows that expire at or after the reading, or all, each once |
| `SqlStore.Store.Revoke` | server/store/sqldb.go:150-162 | flags exactly the named rows; refuses an empty list |
| `SqlStore.Store.GetRevoked` | server/store/sqldb.go:165-174 | exactly the flagged rows that expire at or after the reading, each once |
| `SqlStore.SelectUnique` | server/store/sqldb.go:84-92 | no query returns a row twice |
| `KeyId.KeyIdInjective` | server/signer/signer.go:66 | two key ids are equal exactly when user name and second are, for all user names |
| `KeyId.ParseOfKeyId` | server/signer/signer.go:66 | user name and second can be read back at the last underscore |
| `Records.Uint64RoundTrip` | server/store/store.go:64-66 | int64 to uint64 and back loses nothing, and is the identity exactly from the epoch on |
| `Records.MakeRecordKeepsTimes` | server/store/store.go:69-77 | both ends of the validity, the principals and the certificate survive into the record, which starts unrevoked |
| `Lifecycle.RecordedFields` | server/handlers.go:77-78 | what a signature records: key id, user and configured principals, expiry, certificate and message; the certificate's ValidBefore is that expiry, or lies beyond all signed times |
| `Signer.SignWindow` | server/signer/signer.go:59-71 | the record's expiry is the whole second of the earlier of request and first reading plus max_age, its start that of five minutes before the third; the window is at most max_age rounded up plus 300 seconds; the certificate's unsigned fields are these ends exactly from the epoch on; key id and principals are those of the user |
| `Signer.ValidBeforeBoundedIff` | server/signer/signer.go:59-68 | the certificate's ValidBefore is at most first reading plus max_age exactly when the requested expiry does not lie before the epoch |
| `Signer.MissingExpiryUnbounded` | server/signer/signer.go:60-68 | a request without an expiry gets ValidBefore 18446744011573954816 |
| `Common.UnixIsFloor` | server/signer/signer.go:66-68 | Unix seconds are the floor of the instant, before the epoch too |
| `Signer.KeySigner.SignUserKey` | server/signer/signer.go:54-78 | clamps the request, fills in the certificate from three clock readings, sets permissions, leaves the shared defaults alone, fails only when the SSH library does |
| `Signer.KeySigner.SetPermissions` | server/signer/signer.go:37-51 | the folded permissions, in fresh maps, with the shared default map exactly when there is no extension; that map keeps its contents |
| `Signer.LastEntryWins` | server/signer/signer.go:40-47 | the last entry naming an option decides its value |
| `Signer.OptionsAreNamed` | server/signer/signer.go:40-47 | only options named in the configuration are set |
| `Signer.PlainEntriesExtend` | server/signer/signer.go:44-46 | exactly the entries without "=" become extensions, with no value |
| `Signer.OptionValueWhole` | server/signer/signer.go:42-43 | an option keeps its whole value exactly when its entry has one "=" |
| `Signer.KeySigner.GenerateRevocationList` | server/signer/signer.go:81-94 | the list names the CA and the key ids in order |
| `Base64.DecodeOfEncode` | server/server.go:198 | decoding undoes encoding for every byte string |
| `Base64.DecodesIff` | cmd/cashier/main.go:87-90 | exactly the texts of whole quads with at most two pads at the end are accepted, and yield three bytes a quad less the pads |
| `Base64.Rfc4648Vectors` | server/server.go:198 | two test vectors of section 10 of RFC 4648 |
| `TokenTransport.EncodeToken` | server/server.go:195-209 | the page is the encoded token in chunks, each followed by a newline; with the terminator line it is the paste of the round trip |
| `TokenTransport.ChunkShape` | server/server.go:200-207 | all lines but the last have 70 characters, none is empty, together they are the text |
| `TokenTransport.PasteLoop` | cmd/cashier/main.go:68-77 | yields the text in front of the first "." line |
| `TokenTransport.PasteEndsIff` | cmd/cashier/main.go:72-74 | the loop stops exactly when a "." line arrives |
| `TokenTransport.PasteYieldsEncoded` | cmd/cashier/main.go:72-75 | no line of the page is the terminator, and the paste yields the whole encoded token with either kind of line end, also when the terminator ends the input |
| `TokenTransport.LinesOfScan` | cmd/cashier/main.go:70-74 | scanning loses nothing but line ends, for every input without carriage returns |
| `TokenTransport.PageDecodes` | cmd/cashier/main.go:87 | the page decodes to the token with its line breaks, too |
| `TokenTransport.HeaderToken` | server/handlers.go:24-32 | the scheme is recognised in any letter case; the token lies between the first and the second space; other headers carry none |
| `TokenTransport.HeaderRoundTrip` | server/handlers.go:24-32 | the server reads the token of a bearer header up to its first space |
| `TokenTransport.TokenRoundTrip` | client/client.go:123 | encoding, chunking, pasting, decoding and the header give back the token exactly when it has no space |
| `SignProtocol.Application.Sign` | server/handlers.go:34-89 | refusals and need-reason replies change nothing; otherwise the token is spent and a certificate, if signed, is recorded with the request's message; which status and text go with which case |
| `SignProtocol.HandledIsLifecycleSign` | server/handlers.go:77-81 | what the handler records is the Sign step of `Lifecycle` |
| `SignProtocol.Sign` | client/client.go:149-185 | the exchange has the effect of its last request alone, which differs from the first only in the message; success means signed and received; what is reported otherwise |
| `SignProtocol.ExchangeEffect` | client/client.go:161-172 | at most one token revocation, one certificate, one record; a required reason is the last answer, the first non-empty one, and is what is recorded, with the user, the configured principals and the certificate |
| `SignProtocol.LoopEndsIff` | client/client.go:161-172 | the loop runs for ever exactly when a reason is required, every answer is empty and no attempt fails otherwise |
| `SignProtocol.EndsByFirstAnswer` | server/handlers.go:63-67 | the loop ends no later than the attempt carrying the first non-empty answer |
| `LoginSession.ServedIffTokenStored` | server/server.go:281-292 | a protected page is served exactly when the token stored last by a matching callback, since the cookie was last dropped, expires in ten seconds or later and is accepted then; otherwise it is turned away |
| `LoginSession.TokenKept` | server/server.go:281-292 | a stored token stays in the session until another is stored or the cookie dropped, whatever is requested |
| `LoginSession.StateIsSent` | server/handlers.go:93-98 | the session's state is that of the latest login whose cookie arrived, or empty |
| `LoginSession.CallbackDecided` | server/handlers.go:99-130 | which callbacks succeed, fail and are unauthorized; a successful one leads to the start page where no page was turned away |
| `LoginSession.TokenOrigin` | server/handlers.go:99-130 | the session's token is that of the latest matching callback since the cookie was dropped |
| `LoginSession.StateOrigin` | server/handlers.go:93-98 | a non-empty state in the session was put there by a login |
| `LoginSession.AnswersLoginIff` | server/handlers.go:101-107 | a callback that stored a token answers an earlier login exactly when its state parameter is not empty |
| `LoginSession.EmptyStateServed` | server/handlers.go:101-107 | a page served in a session without a login, after a callback without a state |
| `LoginSession.OriginKept` | server/server.go:285-288 | the page turned away is remembered until another is turned away |
| `LoginSession.NoLoginLoop` | server/handlers.go:108-130 | every successful callback redirects to the page turned away, and the next request passes exactly when the token is unexpired and accepted |
| `LoginSession.LoginCompletes` | server/handlers.go:93-130 | a callback bringing back the state of the latest login succeeds exactly when the code is exchanged and the token accepted |
| `Migrations.WalkKeepsData` | server/store/migrations/sqlite3/20180807224200_new_primary_key.sql:1-32 | any walk that stays at version 1 or above keeps every row in all common columns, with unique key ids |
| `Migrations.WalkWorks` | server/store/migrations/sqlite3/20180822204521_add_reason.sql:1-18 | any walk between versions 0 and 4 succeeds statement by statement; tables, constraints and indexes are a function of the version; arriving at version 4 blanks the messages |
| `Migrations.MigrationWorks` | server/store/migrations/sqlite3/20180807223808_idx_revoked_expires_at.sql:1-5 | the same for each single migration, up and down |
| `Migrations.RebuildWorks` | server/store/migrations/sqlite3/20180807224200_new_primary_key.sql:18-32 | a table rebuild meets all constraints, keeps the data and leaves one index |
| `Migrations.CreateWorks` | server/store/migrations/sqlite3/20180626224600_create_issued_certs.sql:1-12 | the first migration makes the empty table and both indexes |
| `Migrations.DropWorks` | server/store/migrations/sqlite3/20180626224600_create_issued_certs.sql:14-15 | its reverse leaves no table and no index |
| `Migrations.AddReasonWorks` | server/store/migrations/sqlite3/20180822204521_add_reason.sql:1-2 | the new column is blank in every row and meets its constraint |
| `Migrations.InsertedUnrevoked` | server/store/sqldb.go:78 | what the store inserts in the latest version starts unrevoked, under the next row id |
| `Migrations.SatisfiesIff` | server/store/migrations/sqlite3/20180807224200_new_primary_key.sql:2-10 | the constraints of each version come to distinct key ids, distinct row ids and a message in every row |
| `Migrations.ScriptSound` | server/store/migrations/sqlite3/20180807224200_new_primary_key.sql:1-32 | on any database, no script leaves a row incomplete, a constraint broken or an index without its table |
| `Migrations.LeftoverStops` | server/store/migrations/sqlite3/20180807224200_new_primary_key.sql:2-10 | where the temporary table is left over, the way up fails |
| `Migrations.LeftoverComesBack` | server/store/migrations/sqlite3/20180807224200_new_primary_key.sql:18-32 | the way down from version 3 then succeeds exactly when no key id is in both tables, and the rows left over come back |
| `GitLab.New` | server/auth/gitlab/gitlab.go:119-159 | succeeds exactly on the accepted configurations, with whitelist, groups, flag and site as configured |
| `GitLab.AllUsersNeedsSite` | server/auth/gitlab/gitlab.go:124-136 | `allusers` counts in six spellings; it lets in every valid token, and only on a site that is configured |
| `GitLab.ProvidedAuthGroups` | server/auth/gitlab/gitlab.go:247-264 | the trimmed parts of `groups`, then the deprecated group unless its text occurs in `groups` |
| `GitLab.Valid` | server/auth/gitlab/gitlab.go:167-214 | the loop with its last-index exit equals the declarative rule |
| `GitLab.NoGroupsNeedsWhitelist` | server/auth/gitlab/gitlab.go:186-192 | under an accepted configuration, the branch without groups needs a non-empty whitelist containing the user |
| `GitLab.SecondFetchDecides` | server/auth/gitlab/gitlab.go:177-185 | for every provider, the name on the first fetch never changes the decision; the outcome of the second does exactly when the whitelist holds just one of the two names and the rest of the rule is met |
| `GitLab.FetchesDisagree` | server/auth/gitlab/gitlab.go:177-185 | two inputs on which the fetches disagree: another user is let in, and the whitelisted one kept out |
| `ClientCache.Cache.Get` | server/auth/httpclient/client.go:60-69 | the cached client, or a new one that is then cached |
| `ClientCache.Cache.Cleanup` | server/auth/httpclient/client.go:32-40 | removes exactly the entries expired at the reading that met them, which lies between the first and the last |
| `ClientCache.SameClientIff` | server/auth/httpclient/client.go:59-76 | over every run in which no client is created twice, two Gets of a token return the same client exactly when no Destroy or evicting cleanup of it lies between |
| `ClientCache.Apply` | server/auth/httpclient/client.go:32-76 | each call on the cache has the effect of the run's step, and a created client is new |
| `ClientCache.ApplyAll` | server/auth/httpclient/client.go:32-76 | any calls on an empty cache amount to such a run, and the objects that two Gets of a token return are the same exactly when nothing between evicts it |
| `ClientCache.CleanupBounds` | server/auth/httpclient/client.go:35-39 | a cleanup removes every entry expired at its start and none unexpired at its end |
| `ClientCache.NoExpiryEvicted` | server/auth/httpclient/client.go:35-39 | every cleanup evicts a token without an expiry |
| `TokenHandoff.HandoffIsSafe` | cmd/cashier/main.go:67-111 | in every interleaving main decodes the whole text of a request or of a paste, never blocks when responding, at most one request is answered, with ok exactly when signing, connecting and installing happened and succeeded, and with error when one of them failed; only requests without a token are turned away, and at most two hand one over |
| `TokenHandoff.HandoffEnds` | cmd/cashier/main.go:87-111 | main is finished exactly when it has responded or the token did not decode; a response to a listening server waits for a request or has reached one |
| `TokenHandoff.AnsweredIsDecodedIff` | cmd/cashier/main.go:79-87 | the answered request is the one whose token was decoded exactly when its token was handed over before main chose the channel and no paste came between that and the decoding; so it is when no other request hands over a token and nothing is pasted |
| `TokenHandoff.OtherRequestAnswered` | cmd/cashier/localserver.go:45-61 | a run in which the answer goes to a request whose token was not decoded |
| `TokenHandoff.DecodesAtMostOnce` | cmd/cashier/main.go:87-90 | what main decoded never changes afterwards |
| `TokenHandoff.StepKeepsSingle` | cmd/cashier/localserver.go:45-61 | no step answers a second request or fills the response channel early |
| `TokenHandoff.StepConservesTokens` | cmd/cashier/localserver.go:34-61 | each token handed over is in the channel or was the one main took |
| `AgentInstall.InstallCert` | client/client.go:72-98 | adds certificate and key with one and the same lifetime, the second only if the first is accepted |
| `AgentInstall.LifetimeIsWholeSeconds` | client/client.go:73-74 | the lifetime is the whole seconds left |
| `AgentInstall.DroppedByValidBeforeIff` | client/client.go:73-95 | the agent drops the entries by ValidBefore, and then less than one second early, exactly when at least one second is left; otherwise never |
| `AgentInstall.DroppedWithinMaxAgeIff` | server/signer/signer.go:59-68 | with the signer's clamp and a shared clock, the entries are gone max_age after the signer's reading exactly when at least one second is left |
| `AgentInstall.LastSecondStays` | client/client.go:84-92 | a certificate in its last second is installed without a limit |

## Left out

- SSH key parsing, signing, fingerprints and the byte encoding of the revocation list: foreign libraries; only whether they succeed is modelled.
- HTTP transport: header values are taken to arrive unchanged; TLS, Let's Encrypt, privilege dropping, CSRF, metrics and logs are not modelled.
- How the SQL driver stores and compares datetimes: comparisons are on instants. Database connection failures and restarts are not modelled either.
- Row ids of issued_certs in the SQL store, and the JSON form of principals.
- The GitHub, Google and Microsoft providers: short conjunctions over API calls.
- The browser's way of handing the token to the local server (URL and template escaping); the round trip follows the paste.
- The scanner's limit on line length, which 70-character lines do not reach.
- MySQL migrations and the migration runner.
- Cookie encryption; a cookie either reaches the browser or does not, and may be dropped.
- Configuration parsing, vault access, key generation and file saving.
- Closing a store.
- SignProtocol.Application.Sign: of an error text, only the part that does not come from a foreign error.
- SignProtocol.Sign: parsing the configured validity before the exchange and the returned certificate after it are foreign calls, not modelled.
- LoginSession.Step: the session is a value, because it travels in the cookie; no object is updated in place.
- AgentInstall.DroppedByValidBeforeIff: takes the floating point seconds as exact; outside 0 to 2^32 seconds Go leaves the conversion to the implementation.
