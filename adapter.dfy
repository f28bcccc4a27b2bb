/** The adapter object: a database handle and two table names fixed at
    construction; each operation issues one statement against the handle. */
module Adapter {
  import opened Records
  import Store
  import Tables
  import Properties

  /** The database the adapter is handed: the rows of every table. */
  class Database {
    var tables: Store.Snapshot

    constructor (tables: Store.Snapshot)
      ensures this.tables == tables
    {
      this.tables := tables;
    }
  }

  class SurrealDBLuciaAdapter {
    const db: Database
    const sessionTableName: string
    const userTableName: string

    constructor (db: Database, options: DatabaseTables)
      ensures this.db == db
      ensures sessionTableName == options.sessionTableName
      ensures userTableName == options.userTableName
    {
      this.db := db;
      this.sessionTableName := options.sessionTableName;
      this.userTableName := options.userTableName;
    }

    /** The table names every record id is built from. */
    function Options(): DatabaseTables
    {
      DatabaseTables(sessionTableName, userTableName)
    }

    /** The session table holds stored sessions, one row per id. */
    ghost predicate Valid()
      reads db
    {
      Store.Valid(Options(), db.tables)
    }

    method DeleteSession(sessionId: string)
      modifies db
      ensures db.tables == Store.DeleteSession(Options(), old(db.tables), sessionId)
      ensures old(Valid()) ==> Valid()
    {
      db.tables := Store.DeleteSession(Options(), db.tables, sessionId);
    }

    method DeleteUserSessions(userId: string)
      modifies db
      ensures db.tables == Store.DeleteUserSessions(Options(), old(db.tables), userId)
      ensures old(Valid()) ==> Valid()
    {
      db.tables := Store.DeleteUserSessions(Options(), db.tables, userId);
    }

    /** `getSessionAndUser`: the null pair exactly when the session table has no
        record `sessionId`; otherwise that session and its user. */
    function GetSessionAndUser(sessionId: string): (r: (Option<DatabaseSession>, Option<DatabaseUser>))
      reads db
      requires Store.SessionReadable(Options(), db.tables, sessionId)
      ensures r.0.None? <==> Tables.FindById(Store.Rows(db.tables, sessionTableName), Store.SessionRecordId(Options(), sessionId)).None?
      ensures r.0.None? <==> r.1.None?
      ensures r.0.Some? ==> r.0.value.id == sessionId && r.1.value.id == r.0.value.userId
    {
      Store.GetSessionAndUser(Options(), db.tables, sessionId)
    }

    /** `getUserSessions`: the user's sessions, `[]` when there are none. */
    function GetUserSessions(userId: string): (r: seq<DatabaseSession>)
      reads db
      requires Store.UserSessionsReadable(Options(), db.tables, userId)
      ensures r == [] <==> forall row :: row in Store.Rows(db.tables, sessionTableName) ==> !Store.RefersTo(row, Store.UserRecordId(Options(), userId))
      ensures forall i :: 0 <= i < |r| ==> r[i].userId == userId
    {
      Store.GetUserSessions(Options(), db.tables, userId)
    }

    method SetSession(session: DatabaseSession)
      requires Store.CanCreate(Options(), db.tables, session)
      modifies db
      ensures db.tables == Store.SetSession(Options(), old(db.tables), session)
      ensures old(Valid()) && Store.StoredSession(Options(), Store.SessionContent(Options(), session)) ==> Valid()
    {
      db.tables := Store.SetSession(Options(), db.tables, session);
    }

    method UpdateSessionExpiration(sessionId: string, expiresAt: int)
      requires Tables.FindById(Store.Rows(db.tables, sessionTableName), Store.SessionRecordId(Options(), sessionId)).Some?
      modifies db
      ensures db.tables == Store.UpdateSessionExpiration(Options(), old(db.tables), sessionId, expiresAt)
      ensures old(Valid()) ==> Valid()
    {
      db.tables := Store.UpdateSessionExpiration(Options(), db.tables, sessionId, expiresAt);
    }

    /** The clock is a parameter: `now` stands for the database's current time. */
    method DeleteExpiredSessions(now: int)
      modifies db
      ensures db.tables == Store.DeleteExpiredSessions(Options(), old(db.tables), now)
      ensures old(Valid()) ==> Valid()
    {
      db.tables := Store.DeleteExpiredSessions(Options(), db.tables, now);
    }
  }

  /** The sequence the adapter's tests run: a session set for an existing user is
      listed after the user's earlier sessions and read back, and gone once deleted. */
  method SetReadDelete(adapter: SurrealDBLuciaAdapter, session: DatabaseSession)
    requires adapter.Valid()
    requires session.attributes.Keys !! SessionKeys
    requires Tables.FindById(Store.Rows(adapter.db.tables, adapter.sessionTableName), Store.SessionRecordId(adapter.Options(), session.id)).None?
    requires Tables.FindById(Store.Rows(adapter.db.tables, adapter.userTableName), Store.UserRecordId(adapter.Options(), session.userId)).Some?
    requires Store.UserSessionsReadable(adapter.Options(), adapter.db.tables, session.userId)
    modifies adapter.db
    ensures adapter.Valid()
  {
    var earlier := adapter.GetUserSessions(session.userId);
    Properties.SetThenGet(adapter.Options(), adapter.db.tables, session);
    Properties.SetThenListed(adapter.Options(), adapter.db.tables, session);
    adapter.SetSession(session);
    var listed := adapter.GetUserSessions(session.userId);
    assert listed == earlier + [session];
    var (s, u) := adapter.GetSessionAndUser(session.id);
    assert s == Some(session) && u.Some? && u.value.id == session.userId;
    Properties.DeleteThenGet(adapter.Options(), adapter.db.tables, session.id);
    adapter.DeleteSession(session.id);
    assert adapter.GetSessionAndUser(session.id) == (None, None);
  }
}
