# surreal-lucia, modelled in Dafny

A model of the adapter that lets the Lucia session library keep its sessions in
SurrealDB. The adapter translates between two record shapes: SurrealDB documents,
whose `id` is a composite record id (table, key) and whose `user` field links to
a user record, and Lucia's flat records, whose ids are plain strings and whose
extra fields sit in an `attributes` object. Each of its seven operations issues
one SurrealQL statement against the injected database client.

- `records.dfy` (`Records`): record ids, document values (`Time` for dates,
  `Link` for record links, `Obj` for a fetched record), documents as
  `map<string, Value>`, the adapter's two table names, and Lucia's
  `DatabaseSession` and `DatabaseUser`.
- `helpers.dfy` (`Helpers`): the codec from documents to Lucia records, and what it
  promises: ids are the keys of the record ids, the table part is dropped, and
  every field but `id`, `user` and `expires_at` (session) or `id` (user) becomes an
  attribute, unchanged.
- `tables.dfy` (`Tables`): a table as the sequence of its rows in scan order, and
  what selecting by a `WHERE` condition and looking up a record id do to it.
- `store.dfy` (`Store`): each adapter operation as a function of the database
  snapshot (table name to rows): what its statement leaves behind, or what it reads
  back and maps. Every session record id is built from the session table name
  (`Store.SessionRecordId`, as at src/index.ts lines 41, 77, 127 and 159) and every
  user record id from the user table name (`Store.UserRecordId`, lines 57, 105 and 128).
- `properties.dfy` (`Properties`): how the operations relate: a session set is read
  back equal to itself; after a delete, update or expiry sweep, the reads see
  exactly that change; the per-user listing and the single read agree.
- `adapter.dfy` (`Adapter`): the adapter class. Its database handle and table names
  are `const` fields set by the constructor; each writing method replaces the
  handle's tables by what the matching `Store` function gives.

The table invariant `Store.Valid` holds when each row of the session table is a
stored session with its own id and no two rows share an id. The deletes and the
expiry update always keep it. `setSession` keeps it only when the content it builds
is itself a stored session. An attribute named `user` or `expires_at` replaces the
built field and can break that.

## Model

| member | source | states |
|---|---|---|
| Helpers.MapToLuciaDatabaseSession | src/helpers.ts:13-25 | the session id and user id are the keys of the session's and the nested user's record ids; `expiresAt` is `expires_at` unchanged; the attributes are exactly the fields other than `id`, `user`, `expires_at`, with their values |
| Helpers.MapToLuciaDatabaseUser | src/helpers.ts:33-41 | the user id is the key of the user's record id; the attributes are exactly the fields other than `id`, with their values |
| Helpers.SessionUserIdIsUserId | src/helpers.ts:17 | a mapped session's `userId` equals the id of its mapped user |
| Helpers.MappingIgnoresTables | src/helpers.ts:13-41 | both mappings do no validation: documents differing only in the tables of their record ids map to equal records |
| Tables.Filter | src/index.ts:101 | a `WHERE` keeps exactly the rows meeting its condition, never more rows than the table has |
| Tables.FindById | src/index.ts:75 | a lookup by record id finds nothing exactly when no row has that id, otherwise a row of the table with that id |
| Tables.FilterKeepsAll | src/index.ts:40 | a delete whose condition no row fails leaves the table as it was |
| Tables.FilterKeyed | src/index.ts:54 | deleting by condition keeps record ids distinct and in the table |
| Tables.FindInKeyed | src/index.ts:75 | in a table with distinct ids, looking up a row's own id finds that row |
| Tables.FindAfterFilter | src/index.ts:173 | after deleting by condition, a lookup finds the record it found before if the condition kept it, otherwise nothing |
| Tables.FindAfterAppend | src/index.ts:135 | after a create, a lookup finds the old record if there was one, else the new one if it has that id |
| Tables.FilterAppend | src/index.ts:101 | selecting after a create gives the old selection followed by the new row if it qualifies |
| Tables.KeyedAppend | src/index.ts:135 | creating a record with a new id of the table keeps ids distinct |
| Tables.MapSeq | src/index.ts:112-114 | `map` keeps the length and order: the i-th result is the function applied to the i-th element |
| Tables.MapSeqSnoc | src/index.ts:112-114 | mapping after appending an element appends its image |
| Store.FetchUser | src/index.ts:75 | `FETCH user` replaces the link by the linked user record, leaving every other field; the result is a session document the codec accepts |
| Store.DeleteSession | src/index.ts:39-43 | removes only record (session table, `sessionId`); other tables untouched; an absent id leaves the table unchanged; keeps the table invariant |
| Store.DeleteUserSessions | src/index.ts:52-59 | removes exactly the sessions whose `user` is (user table, `userId`); others stay; keeps the invariant |
| Store.SessionContent | src/index.ts:125-131 | the content has `id` = (session table, `session.id`), `user` = (user table, `session.userId`), `expires_at` = `expiresAt`, and the attributes spread last, so an attribute named like one of those wins |
| Store.SetSession | src/index.ts:124-142 | the content becomes the last row of the session table; other tables untouched; keeps the invariant when the content is a stored session |
| Store.Bump | src/index.ts:157 | the updated record gets the new `expires_at` and keeps every other field and its id; other rows are unchanged |
| Store.SetExpiry | src/index.ts:156-162 | the update applies row by row, keeping the table's length and order |
| Store.UpdateSessionExpiration | src/index.ts:152-163 | only the named record's `expires_at` changes; other tables untouched; keeps the invariant |
| Store.DeleteExpiredSessions | src/index.ts:171-178 | removes exactly the sessions with `expires_at < now` and keeps all others; keeps the invariant |
| Store.GetSessionAndUser | src/index.ts:70-89 | the null pair exactly when record (session table, `sessionId`) is absent; otherwise the mapped session, whose `userId` is the key of the stored link and whose expiry and attributes are the row's, paired with the codec's mapping of the user record the link points at, whose id is that `userId` |
| Store.MapFetched | src/index.ts:112-114 | one session per row, in order, each the row with its user fetched and mapped by the codec |
| Store.GetUserSessions | src/index.ts:98-115 | `[]` exactly when no session refers to (user table, `userId`); every returned session has `userId` equal to the argument |
| Properties.ContentRoundTrip | src/index.ts:125-131 | with attributes clear of `id`, `user`, `expires_at`, the codec maps `setSession`'s content, its user fetched, back to the session |
| Properties.FindAfterSetExpiry | src/index.ts:157 | the update keeps every lookup finding the same record, the updated one with its new expiry |
| Properties.SetThenGet | test/adapter.test.ts:144-155 | after setting a new session of an existing user, `getSessionAndUser` returns that session and that user |
| Properties.MapFetchedAgree | src/index.ts:112-114 | rows whose fetched and mapped sessions agree in two databases map to the same list |
| Properties.MapFetchedAppend | src/index.ts:112 | mapping after a create gives the old sessions followed by the new one |
| Properties.SetThenListed | test/adapter.test.ts:90-104 | after setting a new session of an existing user, `getUserSessions` returns the earlier list followed by the new session (scan order taken as creation order, see ## Left out) |
| Properties.DeleteSessionLookup | src/index.ts:39-43 | after `deleteSession`, that record is absent and every other lookup is as before |
| Properties.DeleteThenGet | test/adapter.test.ts:107-113 | after `deleteSession`, `getSessionAndUser` of that id returns the null pair |
| Properties.DeleteUserSessionsLookup | src/index.ts:52-59 | after `deleteUserSessions`, the user's sessions are absent and every other session is found as before |
| Properties.DeleteUserSessionsThenList | src/index.ts:52-59 | after `deleteUserSessions`, `getUserSessions` of that user is empty |
| Properties.MapAfterBump | src/helpers.ts:13-25 | the codec maps a session whose `expires_at` was replaced to the old mapping with only `expiresAt` replaced, whichever copy of the user record is fetched |
| Properties.UpdateKeepsOther | src/index.ts:156-162 | `updateSessionExpiration` leaves the record found under any other id, in any table |
| Properties.UpdateThenGet | test/adapter.test.ts:159-172 | after `updateSessionExpiration`, the session read back differs from before only in `expiresAt`, which is the new value; the user read back is unchanged unless the session's user link is the session's own record |
| Properties.SweepThenGet | test/adapter.test.ts:175-198 | after the sweep, a session that had expired before `now` reads as the null pair and any other reads as before |
| Properties.ListedSessionsRetrievable | src/index.ts:98-115 | every listed session is what `getSessionAndUser` returns for its id, with the listed user |
| Properties.ListedDistinct | src/index.ts:98-115 | with ids distinct in the session table, no two listed sessions share an id: each referring record is listed once |
| Properties.UserSessionsComplete | src/index.ts:98-115 | every session referring to the user is listed |
| Adapter.Database.constructor | src/index.ts:24 | the database handle the adapter is given holds the given tables |
| Adapter.SurrealDBLuciaAdapter.GetSessionAndUser | src/index.ts:70-89 | read through the handle: the null pair exactly when record (session table, `sessionId`) is absent; otherwise the session with that id and the user whose id is its `userId` |
| Adapter.SurrealDBLuciaAdapter.GetUserSessions | src/index.ts:98-115 | read through the handle: `[]` exactly when no session refers to (user table, `userId`); every listed session has that `userId` |
| Adapter.SurrealDBLuciaAdapter.constructor | src/index.ts:23-30 | stores the database handle and the two table names; they are `const` and never change |
| Adapter.SurrealDBLuciaAdapter.DeleteSession | src/index.ts:39-43 | the database becomes what `Store.DeleteSession` gives; the invariant is kept |
| Adapter.SurrealDBLuciaAdapter.DeleteUserSessions | src/index.ts:52-59 | the database becomes what `Store.DeleteUserSessions` gives; the invariant is kept |
| Adapter.SurrealDBLuciaAdapter.SetSession | src/index.ts:124-142 | the database becomes what `Store.SetSession` gives; the invariant is kept for a well-formed content |
| Adapter.SurrealDBLuciaAdapter.UpdateSessionExpiration | src/index.ts:152-163 | the database becomes what `Store.UpdateSessionExpiration` gives; the invariant is kept |
| Adapter.SurrealDBLuciaAdapter.DeleteExpiredSessions | src/index.ts:171-178 | the database becomes what `Store.DeleteExpiredSessions` gives; the invariant is kept |
| Adapter.SetReadDelete | test/adapter.test.ts:90-113 | a caller of the class can show that a session set is listed after the user's earlier sessions and read back with its user, and reads as the null pair once deleted |

## Left out

- The SurrealDB client: connecting, executing `db.query`, the wire protocol and parameter binding. Only each statement's effect on the tables is modelled, not the SurrealQL text.
- Promises and `async`: each call is one sequential step; concurrent callers are not modelled.
- `time::now()` and `type::datetime`: dates are integer instants, and the sweep takes the current time as its parameter `now`.
- `RecordId.id.toString()` for keys that are not strings (numbers, objects, arrays): keys are strings, so the conversion is the identity.
- Scan order: a table scan returns rows in the order they were created. SurrealDB scans a table in record-id order, so with random keys a new session can appear anywhere in `getUserSessions`; the order that `Properties.SetThenListed` states is the model's, not the database's.
- Store.SetSession: `setSession` issues `CREATE`, not an upsert; creating an id that already exists, or content whose `id` attribute is not a link into the session table, is outside the model (`Store.CanCreate`), since the code does not say what the database then does.
- Store.UpdateSessionExpiration: requires the record to exist, since the code does not say what `UPDATE` does to a missing record.
- Store.GetSessionAndUser: requires the found session to have a date `expires_at` and a user link that resolves, into any table (`Store.SessionReadable`). The code does not say what `FETCH user` gives for a dangling link. The model's `expiresAt` is an integer instant, so a session without a date is outside the model; the codec would return it with `expiresAt` undefined. `Store.GetUserSessions` requires the same of every session it lists.
- Store.DeleteExpiredSessions: a row of the session table whose `expires_at` is missing or not a date is kept. Such a row exists only outside `Store.Valid`, for example after an attribute named `expires_at`. How SurrealDB compares a value of another type with `time::now()` is not modelled. Under `Store.Valid` every row has a date, and the removal is exactly the rows dated before `now`.
- Properties.SweepThenGet: stated only when the session and user tables differ, because with one shared table the sweep may remove the record a session's user link points at.
- Properties.UpdateThenGet: the user half is stated only when the session's user link is not the session's own record. When it is, the fetched user is the updated row itself.
