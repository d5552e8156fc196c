# The Redis-backed state layer of the notes manager

This project models the state layer of the notes manager's internal packages in Dafny and proves properties of that model. It has three parts, all sharing one Redis server:

- **The bounded per-user session store** (`session`).
  - A session is a hash under `ns:sessions:<id>`.
  - Each user has a list of session ids under `ns:sessions:user:<uid>`; new ids are pushed at the head.
  - `Create` counts the list. While the count is at least `MaxSessions` (5), it finds the least recently active of the first five listed sessions, removes that id from the list, deletes its record, and counts one fewer. It then writes the new session, and both keys get the 30-day `SessionTTL`.
- **The read-through, invalidate-on-write caches** for notes (`note/cache.go`) and users (`user/cache.go`).
  - Each cache fronts a relational table.
  - A miss reads the table and caches the row for an hour.
  - A hit returns the cached document and restarts its TTL.
  - A write first fetches the entity, then writes the table, then deletes the keys that could hold a copy.
- **The key functions and constructors** of the three packages. This covers the key families that must never collide, login lower-casing, and the password check.

## How the model is built

- **Redis** (module `KeyValue`) is a key space: values (a hash of fields, a list of strings, or a cached JSON document) plus a map of absolute deadlines.
  - Expiry is lazy: a key whose deadline is not after `now` reads as absent.
  - Every command can fail in transport. The state carries a queue of scheduled outcomes; each command consumes one, and `true` makes it fail. An empty queue is a healthy server.
  - A JSON document is represented by the value it encodes, so encoding is the identity. `Unreadable` stands for a document that does not decode into the wanted type.
- **The relational tables** behind the caches (`NoteDb`, `UserDb`) are sequences of rows in insertion order, with a fault queue of the same kind.
  - Notes have a primary key.
  - Users have a primary key and a unique login column.
- **Each operation of the source is written twice**:
  - as a reference function from the state before the call to the reply and the state after it (`FetchSpec`, `CreateSpec`, …);
  - as a method of a class (`SessionRepository.Repository`, `NoteCache.RepositoryCache`, `UserCache.RepositoryCache`) that issues the same commands one at a time against the mutable `Store` and `Db` objects.

  Each method's postcondition says that it agrees with its reference function. The properties are then proved about the reference functions:
  - per call: which keys are touched, what is cached, and how errors propagate;
  - across calls:
    - the five-session cap and the exact conditions under which it fails;
    - a coherence invariant between cache and table that every cache operation preserves on a healthy server;
    - the read-after-write scenarios of the package tests.
- **Time** is an integer number of nanoseconds passed in as `now`. Identifiers are canonical lower-case UUID text. Fresh ids, salts and clock readings are parameters, and the password hash is an uninterpreted function parameter.

## Model

| member | source | states |
|---|---|---|
| SessionModel.KeyBasesNest | src/internal/session/model.go:13-18 | the list base is the record base followed by "user:"; `SessionTTL` is 30 days (2 592 000 s) |
| SessionService.SessionKeysInjectiveAndDisjoint | src/internal/session/service.go:13-19 | both key functions are injective and no record key equals a list key, because a UUID never starts with "user:" |
| SessionService.New | src/internal/session/service.go:21-29 | the new session carries the given id, user, role and the two clock readings |
| SessionService.UpdateActivity | src/internal/session/service.go:31-33 | only `lastActivity` changes, to `now`; id, user, role and creation time are kept |
| SessionService.AssignedHoldsSession | src/internal/session/service.go:35-58 | writing the five fields over any hash leaves a hash holding the session, with every other field unchanged |
| SessionService.OkRun | src/internal/session/service.go:35-58 | the number of field writes that succeed is the length of the leading run of successful scheduled outcomes |
| SessionService.WriteFieldsOutcome | src/internal/session/service.go:35-58 | the five-field write passes exactly when none of its writes is scheduled to fail |
| SessionService.WriteFieldsStopsAtFirstFailure | src/internal/session/service.go:35-58 | exactly the writes before the first failing one reach the hash, and nothing else changes |
| SessionService.WriteFieldsKeepsHealthy | src/internal/session/service.go:35-58 | on a healthy server, the writes leave it healthy |
| SessionService.HSetHealthy | src/internal/session/service.go:35-58 | on a healthy server, `HSet` passes and the record holds the session, with no other key changed |
| SessionService.HSet | src/internal/session/service.go:35-58 | the method issues the five HSETs in order and agrees with the reference function |
| SessionRepository.Repository.Fetch | src/internal/session/repository.go:132-150 | agrees with `FetchSpec`: HGETALL; an empty hash is `ErrSessionIsNotExists`; other errors pass through |
| SessionRepository.Repository.FetchOldest | src/internal/session/repository.go:152-183 | the scan loop agrees with `FetchOldestSpec` (LRANGE of five ids, then a linear minimum search) |
| SessionRepository.Repository.Create | src/internal/session/repository.go:53-113 | agrees with `CreateSpec`: LLEN, the eviction loop, then the insert |
| SessionRepository.Repository.EvictWhileFull | src/internal/session/repository.go:64-89 | the `for count >= MaxSessions` loop agrees with `Evict` and terminates by `count` |
| SessionRepository.Repository.EvictOldest | src/internal/session/repository.go:66-86 | one pass: `FetchOldest`, LREM of one occurrence, DEL of its record |
| SessionRepository.Repository.Insert | src/internal/session/repository.go:92-110 | the final pipeline: the record's fields and TTL, then LPUSH of the id and the list's TTL |
| SessionRepository.Repository.Update | src/internal/session/repository.go:30-51 | agrees with `UpdateSpec`: the field writes, then both TTLs |
| SessionRepository.Repository.Delete | src/internal/session/repository.go:115-130 | agrees with `DeleteSpec`: `Fetch`, then LREM and DEL of the fetched session |
| SessionRepository.Repository.FetchAll | src/internal/session/repository.go:185-214 | the gathering loop agrees with `FetchAllSpec` |
| SessionRepository.EvictStep | src/internal/session/repository.go:64-89 | a successful pass at or above the cap continues the loop with the count one lower |
| SessionEviction.EvictRunsRounds | src/internal/session/repository.go:55-89 | below the cap the loop evicts nothing and changes nothing; otherwise it runs exactly `count - MaxSessions + 1` passes, stopping at the first failure |
| SessionEviction.ScanFrame | src/internal/session/repository.go:161-182 | the scan deletes only records of the ids it reads, and returns its starting candidate or one of those ids |
| SessionEviction.Scanned | src/internal/session/repository.go:153 | exactly the first `MaxSessions` list entries are scanned |
| SessionEviction.ScanPicksFirstLeast | src/internal/session/repository.go:161-180 | over records carrying stamps, the scan changes nothing; with no stamp below the baseline it keeps the candidate; otherwise it picks the first id with the least whole second, strictly below the baseline |
| SessionEviction.FetchOldestPicks | src/internal/session/repository.go:152-183 | from the `now` baseline, `FetchOldest` returns `uuid.Nil` when no scanned stamp is a whole second older than `now`, and otherwise the first scanned id with the least second |
| SessionEviction.DanglingReadsAsZero | src/internal/session/repository.go:167-179 | a listed id without `last_activity` has its record deleted and reads as the zero time |
| SessionEviction.BareKeysCons | src/internal/session/repository.go:161-180 | the records the scan deletes are the bare head's record, if it is bare, and those of the tail |
| SessionEviction.DeleteBare | src/internal/session/repository.go:168-171 | deleting a record without `last_activity` changes no other record's stamp or bareness |
| SessionEviction.ScanAfterBare | src/internal/session/repository.go:161-180 | once the candidate reads as the zero time no later record replaces it, and every later bare record is deleted |
| SessionEviction.ScanBareHead | src/internal/session/repository.go:167-179 | a head record without `last_activity` becomes the candidate at the zero time and is kept to the end of the scan |
| SessionEviction.ScanFindsBare | src/internal/session/repository.go:161-180 | from a baseline after the zero time, the scan returns the first record without `last_activity` and deletes exactly the bare records |
| SessionEviction.FetchOldestPicksBare | src/internal/session/repository.go:152-183 | when some scanned record lacks `last_activity` and every stamp is after the zero time, `FetchOldest` returns the first such id and the key space loses exactly the records of those ids |
| SessionEviction.RoundFrame | src/internal/session/repository.go:66-86 | once `FetchOldest` succeeds on a healthy server, the pass succeeds, the id it picks is `uuid.Nil` or a scanned id, the list loses one occurrence of it, and only the list, that id's record and the scanned records can change |
| SessionEviction.RoundStale | src/internal/session/repository.go:66-88 | over a non-empty list of stale ids, a pass succeeds and shortens the list by one, keeping every remaining id stale |
| SessionEviction.RoundPrunes | src/internal/session/repository.go:66-88 | such a pass only removes keys, except the user's list, and the id it removes is one that was listed |
| SessionCap.EvictStale | src/internal/session/repository.go:55-89 | over stale ids the loop succeeds and leaves exactly `MaxSessions - 1` ids when it started at or above the cap |
| SessionCap.EvictPrunes | src/internal/session/repository.go:55-89 | the loop only removes keys, apart from the user's list |
| SessionCap.CreateKeepsCap | src/internal/session/repository.go:53-113 | on a healthy server where every listed session is stale (last active a whole second before `now`, or dangling), `Create` passes, the list ends with `min(count + 1, MaxSessions)` ids and the new id at its head, and `Fetch` returns the new session |
| SessionCap.CreateEvictsOldest | src/internal/session/repository.go:53-113 | at the cap, with every listed session stamped a whole second or more before `now`, `Create` evicts exactly the least recently active session (the first of those sharing its second): the list becomes the new id followed by the other ids in order, the evicted record is gone, the new session reads back and no other key changes |
| SessionCap.CreateEvictsDangling | src/internal/session/repository.go:53-113 | at the cap, when some listed record lacks `last_activity`, `Create` evicts the first such id: the list becomes the new id followed by the other ids in order, every record without `last_activity` is deleted, the new session reads back and no other key changes |
| SessionCap.EvictAtCapOldest | src/internal/session/repository.go:55-89 | at the cap over stamped sessions older than `now`, the loop runs one round, which removes the first least recently active id and its record |
| SessionCap.EvictAtCapDangling | src/internal/session/repository.go:55-89 | at the cap with a record lacking `last_activity`, the loop runs one round, which deletes every such record and removes the first such id from the list |
| SessionCap.InsertAfterRemoval | src/internal/session/repository.go:92-110 | after a round removed an id, the insert puts the new id at the head of the remaining list and the new session reads back |
| SessionCap.FetchOldestRecent | src/internal/session/repository.go:152-183 | when no scanned session is older than `now` by a whole second, `FetchOldest` returns `uuid.Nil` and changes nothing |
| SessionCap.RoundRecent | src/internal/session/repository.go:66-88 | such a pass removes nothing from the list and only deletes the record key of `uuid.Nil` |
| SessionCap.EvictRecent | src/internal/session/repository.go:55-89 | under the same conditions every pass is that idle pass, so the loop changes at most the `uuid.Nil` record |
| SessionCap.CreateExceedsCap | src/internal/session/repository.go:53-113 | on a healthy server whose list holds five or more ids, none of them `uuid.Nil`, and whose first five sessions were active in the current second, `Create` passes, evicts nothing, and leaves the new id in front of the whole old list, more than `MaxSessions` ids |
| SessionProperties.ScanReadsBack | src/internal/session/repository.go:132-150 | decoding a hash that holds the five fields of a session gives that session back |
| SessionProperties.FetchOutcomes | src/internal/session/repository.go:132-150 | a transport failure passes through, an absent or empty record is `ErrSessionIsNotExists`, a stored session is decoded, and nothing changes |
| SessionProperties.InsertEffect | src/internal/session/repository.go:92-110 | on a healthy server the insert passes; the record holds the session, the id heads the list, both carry `SessionTTL`, and no other key changes |
| SessionProperties.UpdateEffect | src/internal/session/repository.go:30-51 | `Update` passes without checking that the session exists; it rewrites the record with a fresh TTL, refreshes the list's TTL, and leaves every list's contents unchanged |
| SessionProperties.DeleteMapsFetchErrors | src/internal/session/repository.go:117-120 | every failure of the inner `Fetch`, transport errors included, becomes `ErrSessionIsNotExists` |
| SessionProperties.DeleteAfterFetch | src/internal/session/repository.go:122-126 | once `Fetch` finds the session, `Delete` is LREM of its id from its user's list, then DEL of its record |
| SessionProperties.DeleteEffect | src/internal/session/repository.go:115-130 | on a healthy server, deleting a stored session removes one occurrence of its id and its record, and nothing else |
| SessionProperties.FetchEachOutcomes | src/internal/session/repository.go:191-213 | the loop changes nothing; a success has one session per id; any dangling id makes it fail, so the `redis.Nil` cleanup branch is unreachable |
| SessionProperties.FetchAllOutcomes | src/internal/session/repository.go:185-214 | at most the first five ids are read; a success has one session per id read; a dangling id among them makes the call fail |
| SessionProperties.FetchAllSingle | src/internal/session/repository.go:185-214 | a list naming only one stored session yields exactly that session |
| SessionProperties.FetchAllNone | src/internal/session/repository.go:185-214 | an empty or absent list yields no sessions |
| SessionProperties.LifeCycle | src/internal/session/repository_test.go:41-78 | from an empty server: no session before `Create`; after `Create`, `Fetch` returns it and `FetchAll` returns it alone; after `UpdateActivity` and `Update`, `Fetch` returns the update; after `Delete`, `Fetch` fails and `FetchAll` is empty |
| SessionStates.AllStaleIndex | src/internal/session/repository.go:161-180 | the recursive and the quantified forms of "every listed id is stale" coincide |
| Clock.UnixSecondsMonotonic | src/internal/session/repository.go:176 | whole-second truncation is monotonic, and instants a second apart differ in whole seconds |
| NoteModel.PatchesCompose | src/internal/note/model.go:28-33 | a patch cannot change the author or the creation time, and two patches in turn amount to the last one |
| NoteService.NoteKey | src/internal/note/service.go:11-13 | the key is "ns:notes::" followed by the id, with the double colon the format produces |
| NoteService.NotesKey | src/internal/note/service.go:16-18 | the key is "ns:notes:users::" followed by the user id |
| NoteService.NoteKeysInjectiveAndDisjoint | src/internal/note/service.go:11-18 | both key functions are injective, and the families are disjoint (tenth character ':' against 'u') |
| NoteService.New | src/internal/note/service.go:21-32 | the note carries the given id, author, title and content, with `createdAt == updatedAt` |
| NoteDb.Find | src/internal/note/repository.go:27-39 | the row found has the id; nothing is found exactly when no row has it |
| NoteDb.Authored | src/internal/note/repository.go:42-50 | the result holds exactly the rows written by the author |
| NoteDb.PatchRows | src/internal/note/repository.go:82-84 | every row with the patch's id is patched, and every other row is kept |
| NoteDb.Without | src/internal/note/repository.go:77-79 | the result holds exactly the rows with another id |
| NoteDb.FindUnique | src/internal/note/repository.go:27-39 | under the primary key, `Find` returns the one row with the id |
| NoteDb.FindAppend | src/internal/note/repository.go:21-23 | after inserting a row, `Find` returns it for its id and the old answer for every other id |
| NoteDb.AuthoredAppend | src/internal/note/repository.go:21-23 | after inserting a row, only its author's rows gain it |
| NoteDb.FindPatched | src/internal/note/repository.go:82-84 | after a patch, `Find` returns the patched row for its id and the old answer otherwise |
| NoteDb.AuthoredPatched | src/internal/note/repository.go:82-84 | a patch changes only the rows of the patched row's author |
| NoteDb.FindWithout | src/internal/note/repository.go:77-79 | after a removal, the id is absent and every other id is found as before |
| NoteDb.AuthoredWithout | src/internal/note/repository.go:77-79 | after a removal, the author's rows lose only the removed row |
| NoteDb.CreateKeepsUniqueIds | src/internal/note/repository.go:21-23 | the primary key holds after an insert |
| NoteDb.UpdateKeepsUniqueIds | src/internal/note/repository.go:82-84 | the primary key holds after a patch |
| NoteDb.DeleteKeepsUniqueIds | src/internal/note/repository.go:77-79 | the primary key holds after a removal |
| NoteDb.Db.Fetch | src/internal/note/repository.go:27-39 | agrees with the table's `Fetch`: an absent id is `ErrNoteIsNotExists` |
| NoteDb.Db.FetchAll | src/internal/note/repository.go:42-50 | agrees with the table's `FetchAll` |
| NoteDb.Db.Create | src/internal/note/repository.go:21-23 | agrees with the table's `Create` |
| NoteDb.Db.Update | src/internal/note/repository.go:82-84 | agrees with the table's `Update` |
| NoteDb.Db.Delete | src/internal/note/repository.go:77-79 | agrees with the table's `Delete` |
| NoteCache.DecodeNote | src/internal/note/cache.go:65-68 | decoding succeeds exactly on a note document and returns that note; anything else is a decoding error |
| NoteCache.DecodeNotes | src/internal/note/cache.go:105-108 | decoding succeeds exactly on a note-list document; anything else is a decoding error |
| NoteCache.RepositoryCache.Invalidate | src/internal/note/cache.go:25-27 | one DEL of the author's list key and the note's key |
| NoteCache.RepositoryCache.Create | src/internal/note/cache.go:30-36 | agrees with `CreateSpec`: insert, then invalidate |
| NoteCache.RepositoryCache.Fetch | src/internal/note/cache.go:39-76 | agrees with `FetchSpec`: GET; on a miss read the table and SET for `defaultTTL`; on a hit decode and EXPIRE |
| NoteCache.RepositoryCache.FetchAll | src/internal/note/cache.go:79-116 | agrees with `FetchAllSpec`, the same pattern on the author's list key |
| NoteCache.RepositoryCache.Delete | src/internal/note/cache.go:119-130 | agrees with `DeleteSpec`: fetch, remove the row, invalidate the fetched note's keys |
| NoteCache.RepositoryCache.Update | src/internal/note/cache.go:133-144 | agrees with `UpdateSpec`: fetch, save the patch, invalidate the pre-update note's keys |
| NoteProperties.CreateInvalidatesAfterInsert | src/internal/note/cache.go:30-36 | the table is written first; if that fails no key is touched, otherwise exactly the author's list key and the note's key are deleted |
| NoteProperties.FetchMiss | src/internal/note/cache.go:43-59 | a miss reads the table once; its failure, `ErrNoteIsNotExists` included, is returned uncached; a row found is cached under the note's key for `defaultTTL` |
| NoteProperties.FetchHit | src/internal/note/cache.go:64-75 | a hit never reads the table; a non-note document is a decoding error, not a miss; a note is returned and its TTL restarted |
| NoteProperties.FetchStoreError | src/internal/note/cache.go:60-62 | a failing GET is returned, and neither the table nor the key space is touched |
| NoteProperties.FetchAllMiss | src/internal/note/cache.go:83-99 | on a miss the author's rows, possibly none, are cached for `defaultTTL`; a table failure is returned uncached |
| NoteProperties.FetchAllHit | src/internal/note/cache.go:104-115 | a hit never reads the table and returns the cached list with its TTL restarted |
| NoteProperties.FetchAllStoreError | src/internal/note/cache.go:100-102 | a failing GET is returned, and neither the table nor the key space is touched |
| NoteProperties.UpdateFetchesFirst | src/internal/note/cache.go:133-144 | the patch is saved only after a successful fetch; then exactly the keys of the note as fetched are deleted |
| NoteProperties.DeleteFetchesFirst | src/internal/note/cache.go:119-130 | no row is removed without a successful fetch; then exactly the fetched note's keys are deleted |
| NoteCoherence.CoherentLater | src/internal/note/cache.go:55 | keys only expire as time passes, so a coherent cache stays coherent |
| NoteCoherence.CoherentAfterInvalidate | src/internal/note/cache.go:25-27 | deleting a note's two keys restores coherence with a table that changed only at that note and its author's rows |
| NoteCoherence.FetchKeepsCoherent | src/internal/note/cache.go:39-76 | on a healthy server, `Fetch` keeps the cache coherent and the server healthy |
| NoteCoherence.FetchReadsThrough | src/internal/note/cache.go:39-76 | on a healthy server and a healthy table, a coherent cache returns exactly the table's answer |
| NoteCoherence.FetchAllKeepsCoherent | src/internal/note/cache.go:79-116 | the same for `FetchAll` |
| NoteCoherence.FetchAllReadsThrough | src/internal/note/cache.go:79-116 | `FetchAll` returns exactly the author's rows |
| NoteCoherence.CreateKeepsCoherent | src/internal/note/cache.go:30-36 | `Create` keeps the cache coherent and the primary key intact |
| NoteCoherence.UpdateKeepsCoherent | src/internal/note/cache.go:133-144 | `Update` keeps the cache coherent |
| NoteCoherence.DeleteKeepsCoherent | src/internal/note/cache.go:119-130 | `Delete` keeps the cache coherent |
| NoteCoherence.CreateThenFetch | src/internal/note/cache_test.go:30-45 | `Create` passes exactly when the id is free; then, at any later time, `Fetch` returns the note and `FetchAll` returns the author's earlier notes followed by it |
| NoteCoherence.UpdateThenFetch | src/internal/note/cache_test.go:47-66 | after a successful `Update`, `Fetch` returns the stored note with the patch applied; an absent note is reported and nothing is saved |
| NoteCoherence.DeleteThenFetch | src/internal/note/cache_test.go:68-80 | after a successful `Delete`, `Fetch` reports the note as absent |
| NoteCoherence.FailedInvalidationServesStale | src/internal/note/cache.go:133-144 | when the DEL after a saved patch fails, the table holds the patched note while the cache keeps serving the old one |
| UserModel.ValidLoginLowered | src/internal/user/model.go:22 | a valid login (3 to 32 alphanumerics) stays valid once lower-cased |
| UserModel.KeyBasesNest | src/internal/user/model.go:13-18 | the login base is the id base followed by "login:" |
| Text.LowerChar | src/internal/user/service.go:35 | an upper-case ASCII letter moves down 32 code points; every other character is kept |
| Text.Lower | src/internal/user/service.go:35 | lower-casing keeps the length and lower-cases each character |
| Text.LowerIsLower | src/internal/user/cache.go:75 | lower-casing yields lower-case text and is idempotent |
| Text.LowerKeepsAlphaNum | src/internal/user/model.go:22 | lower-casing keeps alphanumeric text alphanumeric |
| UserService.LoginKey | src/internal/user/service.go:14-16 | the key is the login base followed by the login |
| UserService.UserKey | src/internal/user/service.go:18-20 | the key is "ns:users:" followed by the id |
| UserService.UserKeysInjectiveAndDisjoint | src/internal/user/service.go:14-20 | both key functions are injective, and no id key equals a login key, because a UUID never starts with "login:" |
| UserService.New | src/internal/user/service.go:22-42 | the login is stored lower-cased, the password as the hash of password and salt, the role is `DefaultRole`, and `registeredAt == lastLoginAt` |
| UserService.NewValidates | src/internal/user/service.go:48-53 | a new user accepts the password it was made with and rejects every password whose salted hash differs |
| UserService.NewIgnoresCase | src/internal/user/service.go:22-42 | logins that differ only in case make the same stored login and so the same login key |
| UserDb.Find | src/internal/user/repository.go:27-39 | the row found has the id; nothing is found exactly when no row has it |
| UserDb.FindLogin | src/internal/user/repository.go:42-54 | the row found has the login; nothing is found exactly when no row has it |
| UserDb.Saved | src/internal/user/repository.go:57-59 | GORM `Save`: the row with the id is rewritten, or the row is appended when the id is new |
| UserDb.Without | src/internal/user/repository.go:62-64 | the result holds exactly the rows with another id |
| UserDb.FindBoth | src/internal/user/repository.go:27-54 | under the keys, the row found by id and the row found by its login are the same row |
| UserDb.FindAppend | src/internal/user/repository.go:22-24 | a new row with a free id and login is found by both |
| UserDb.ReplacedKeys | src/internal/user/repository.go:57-59 | replacing a row by one with the same id and an untaken login keeps both keys unique |
| UserDb.FindLoginReplaced | src/internal/user/repository.go:57-59 | the old login then finds nothing (unless unchanged), the new login finds the new row, and every other login is found as before |
| UserDb.FindSaved | src/internal/user/repository.go:57-59 | after `Save`, the id finds the saved row and every other id is found as before |
| UserDb.FindWithout | src/internal/user/repository.go:62-64 | removing a row frees its id and login and nothing else |
| UserDb.CreateKeepsUniqueKeys | src/internal/user/repository.go:22-24 | both keys stay unique after an insert |
| UserDb.UpdateKeepsUniqueKeys | src/internal/user/repository.go:57-59 | both keys stay unique after a `Save` |
| UserDb.DeleteKeepsUniqueKeys | src/internal/user/repository.go:62-64 | both keys stay unique after a removal |
| UserDb.Db.Fetch | src/internal/user/repository.go:27-39 | agrees with the table's `Fetch`: an absent id is `ErrUserIsNotExists` |
| UserDb.Db.FetchLogin | src/internal/user/repository.go:42-54 | agrees with the table's `FetchLogin`, which looks up the lower-cased login |
| UserDb.Db.Create | src/internal/user/repository.go:22-24 | agrees with the table's `Create` |
| UserDb.Db.Update | src/internal/user/repository.go:57-59 | agrees with the table's `Update` |
| UserDb.Db.Delete | src/internal/user/repository.go:62-64 | agrees with the table's `Delete` |
| UserCache.DecodeUser | src/internal/user/cache.go:59-63 | decoding succeeds exactly on a user document and returns that user |
| UserCache.RepositoryCache.Create | src/internal/user/cache.go:26-28 | passes through to the table and touches no key |
| UserCache.RepositoryCache.Fetch | src/internal/user/cache.go:31-71 | agrees with `FetchSpec`: GET by id; on a miss read the table and SET under the row's id; on a hit decode and EXPIRE |
| UserCache.RepositoryCache.FetchLogin | src/internal/user/cache.go:73-116 | agrees with `FetchLoginSpec`: lower-case, GET, on a miss SET under the stored login, on a hit EXPIRE the decoded login's key |
| UserCache.RepositoryCache.Update | src/internal/user/cache.go:119-133 | agrees with `UpdateSpec`: fetch, save, DEL of the id key and the old login's key |
| UserCache.RepositoryCache.Delete | src/internal/user/cache.go:136-150 | agrees with `DeleteSpec`: fetch, remove, DEL of the id key and the fetched login's key |
| UserProperties.CreatePassesThrough | src/internal/user/cache.go:26-28 | the key space is unchanged and the table sees exactly its `Create` |
| UserProperties.FetchMiss | src/internal/user/cache.go:36-54 | a miss reads the table; its failure, `ErrUserIsNotExists` included, is returned uncached; a row found is cached under its id key |
| UserProperties.FetchHit | src/internal/user/cache.go:59-70 | a hit never reads the table; a non-user document is a decoding error, not a miss |
| UserProperties.FetchStoreError | src/internal/user/cache.go:55-57 | a failing GET is returned, and neither the table nor the key space is touched |
| UserProperties.FetchLoginMiss | src/internal/user/cache.go:75-99 | a miss asks the table for the lower-cased login and caches the row for `DefaultTTL` under the stored login's key, the one every spelling of that login reads; a table failure is returned uncached |
| UserProperties.FetchLoginHit | src/internal/user/cache.go:104-115 | a hit returns the decoded user without the table, keeps the value at the decoded login's key and, when that key is live, restarts its TTL at `DefaultTTL`; no other key changes |
| UserProperties.UpdateFetchesFirst | src/internal/user/cache.go:119-133 | the row is saved only after a successful fetch; then the id key and the old login's key are deleted, and the new login's key is left as it was |
| UserProperties.DeleteFetchesFirst | src/internal/user/cache.go:136-150 | no row is removed without a successful fetch; then the id key and the fetched login's key are deleted |
| UserCoherence.CoherentLater | src/internal/user/cache.go:50 | keys only expire as time passes, so a coherent cache stays coherent |
| UserCoherence.CoherentAfterDelete | src/internal/user/cache.go:132 | deleting keys never breaks coherence |
| UserCoherence.CoherentAfterTableWrite | src/internal/user/cache.go:127-132 | a table change keeps coherence when every id and login it moves has no live key |
| UserCoherence.FetchKeepsCoherent | src/internal/user/cache.go:31-71 | on a healthy server, `Fetch` keeps the cache coherent and the server healthy |
| UserCoherence.FetchReadsThrough | src/internal/user/cache.go:31-71 | on a healthy server and table, a coherent cache returns exactly the table's answer |
| UserCoherence.FetchLoginKeepsCoherent | src/internal/user/cache.go:73-116 | the same for `FetchLogin` |
| UserCoherence.FetchLoginReadsThrough | src/internal/user/cache.go:73-116 | `FetchLogin` returns the row whose login is the lower-cased argument, so spellings that differ in case find the same user |
| UserCoherence.CreateKeepsCoherent | src/internal/user/cache.go:26-28 | `Create` keeps the cache coherent and both keys unique |
| UserCoherence.SavedCoherent | src/internal/user/cache.go:119-133 | saving a row over a fetched one and deleting the fetched row's two keys restores coherence |
| UserCoherence.NewLoginFree | src/internal/user/cache.go:127 | a login change the unique index admits moves to a login no row holds |
| UserCoherence.WithoutCoherent | src/internal/user/cache.go:136-150 | removing a row and deleting its two keys restores coherence |
| UserCoherence.UpdateKeepsCoherent | src/internal/user/cache.go:119-133 | `Update` keeps the cache coherent |
| UserCoherence.DeleteKeepsCoherent | src/internal/user/cache.go:136-150 | `Delete` keeps the cache coherent |
| UserCoherence.CreateThenFetch | src/internal/user/cache_test.go:80-111 | after a successful `Create` of a user with a lower-case login, `Fetch` by id and `FetchLogin` by that login return it, at any later time |
| UserCoherence.UpdateThenFetch | src/internal/user/cache_test.go:80-111 | after an `Update`, `Fetch` returns the new row and the new login finds it; after a login change, the old login finds nothing |
| UserCoherence.DeleteThenFetch | src/internal/user/cache_test.go:80-111 | after `Delete`, neither the id nor the login finds the user |
| KeySpace.FamiliesDisjoint | src/internal/session/service.go:13-19 | the six key families of the three packages share one database and never collide |

## Left out

- Real time, context cancellation and the Redis server's own clock. `now` is a parameter. Whenever a cache operation passes `now`, it is the same instant for every command of that operation.
- Concurrency and pipelining. A Redis pipeline is modelled as its commands issued one after the other, stopping at the first one that fails. go-redis instead queues every command, sends them all at `Exec` and reports the first error, so the commands after a failing one still run on the server; the model does not capture their effects. Two `Create` calls racing on one user's list are not modelled.
- JSON encoding and decoding (goccy/go-json) are the identity. A cached document of the wrong kind stands for one that does not decode. `json.Marshal` of a row never fails, so its error branches (src/internal/note/cache.go:50-53 and 90-93, src/internal/user/cache.go:44-47 and 89-92) can't happen.
- `strings.ToLower` is modelled on ASCII only. No Unicode case mapping is modelled.
- `uuid.Parse` is modelled on the canonical lower-case spelling only, which is the only spelling the services write.
- `uuid.New`, the salt generator and `time.Now` are parameters. The SHA-512/base64 password digest is an uninterpreted function parameter.
- SessionService.UpdateActivity: returns an updated value instead of assigning through the pointer, so aliasing of the `*Session` is not modelled.
- SessionRepository.ScanText: a `role` field that holds a time stamp reads as a decoding error, where go-redis would return the stamp's RFC 3339 text. The text rendering of times is not modelled; the services only ever write text into `role`.
- SessionCap.CreateKeepsCap: for any list of stale sessions it states the length and head of the resulting list, not which old ids survive. Which ids survive is stated for a list at the cap, where one round runs, by CreateEvictsOldest and CreateEvictsDangling. Over a longer list, each round scans only the first `MaxSessions` ids, and the composition of the rounds is not stated.
- SessionCap.EvictStale: states the number of surviving ids and that they stay stale, not which ones. The id each round evicts is stated by SessionEviction.FetchOldestPicks and FetchOldestPicksBare.
- SessionEviction.RecordKeys: only counts list entries that parse as UUIDs. The services never push anything else.
- SessionProperties.FetchEachOutcomes: there is no model of the `redis.Nil` cleanup branch of `FetchAll` (src/internal/session/repository.go:200-205), because `Fetch` never returns `redis.Nil` and the branch is unreachable.
- The relational tables are abstract row sequences in insertion order. The order of `FetchAll` and the SQL itself are not modelled, and GORM's `First` is the first row in that order.
- NoteDb.PatchRows: an `Update` of an absent note id leaves the table unchanged, where GORM's `Save` would insert a partial row. `Update` fetches first, so it reaches a `Save` of an absent id only when the fetch is served by a stale cache entry that a failed invalidation left behind (as FailedInvalidationServesStale shows); in that case the model keeps the table as it was.
- UserDb.UniqueKeys: the unique index on the login column comes from the database schema, which is not part of this model. Uniqueness is exact, not case-insensitive: every stored login is lower-case.
- `FetchPublic` (src/internal/note/repository.go:53-74) is not in the `Repository` interface and is not modelled.
- The HTTP layer, bootstrapping, configuration and the generated mocks are not part of this model.
- The old names `MAX_SESSIONS`, `SESSION_TTL`, `DefaultTTL` and `DEFAULT_ROLE` used in some files are taken to be `MaxSessions`, `SessionTTL`, `defaultTTL` and `DefaultRole` from the `model.go` files.
- NoteCoherence.FetchReadsThrough: the coherence and read-after-write lemmas assume a healthy key-value server. With a failing one, invalidation can leave stale entries, as FailedInvalidationServesStale shows.
- UserCoherence.FetchReadsThrough: holds under the same healthy-server assumption.
