/** The adapter's seven operations, each as what its one statement does to a
    snapshot of the database, or what it reads back from one. The table names
    come from the adapter's options; every session record id is built from the
    session table name and every user record id from the user table name. */
module Store {
  import opened Records
  import opened Helpers
  import opened Tables

  /** The database: the rows of each table, by table name. A missing table is empty. */
  type Snapshot = map<string, seq<Document>>

  function Rows(db: Snapshot, table: string): seq<Document>
  {
    if table in db then db[table] else []
  }

  /** The record id of session `sessionId`. */
  function SessionRecordId(t: DatabaseTables, sessionId: string): RecordId
  {
    RecordId(t.sessionTableName, sessionId)
  }

  /** The record id of user `userId`. */
  function UserRecordId(t: DatabaseTables, userId: string): RecordId
  {
    RecordId(t.userTableName, userId)
  }

  /** A stored session: its own record id, an expiry date and a link to a user. */
  predicate StoredSession(t: DatabaseTables, row: Document)
  {
    && IdOf(row).Some? && IdOf(row).value.table == t.sessionTableName
    && "expires_at" in row && row["expires_at"].Time?
    && "user" in row && row["user"].Link? && row["user"].rid.table == t.userTableName
  }

  /** The session table holds stored sessions, one row per id. */
  predicate Valid(t: DatabaseTables, db: Snapshot)
  {
    && Keyed(Rows(db, t.sessionTableName), t.sessionTableName)
    && forall row :: row in Rows(db, t.sessionTableName) ==> StoredSession(t, row)
  }

  /** The session links to `user` (`WHERE user = ...`). */
  predicate RefersTo(row: Document, user: RecordId)
  {
    "user" in row && row["user"] == Link(user)
  }

  /** The session expired before `now` (`WHERE expires_at < now`). A row whose
      `expires_at` is not a date does not count as expired. */
  predicate Expired(row: Document, now: int)
  {
    "expires_at" in row && row["expires_at"].Time? && row["expires_at"].instant < now
  }

  function Without(rid: RecordId): Document -> bool
  {
    row => !HasId(row, rid)
  }

  function NotOwnedBy(user: RecordId): Document -> bool
  {
    row => !RefersTo(row, user)
  }

  function OwnedBy(user: RecordId): Document -> bool
  {
    row => RefersTo(row, user)
  }

  function Unexpired(now: int): Document -> bool
  {
    row => !Expired(row, now)
  }

  /** The row's user link points at a record the database holds. */
  predicate UserResolves(db: Snapshot, row: Document)
  {
    "user" in row && row["user"].Link? && FindById(Rows(db, row["user"].rid.table), row["user"].rid).Some?
  }

  /** `FETCH user`: the link is replaced by the user record it points at. */
  function FetchUser(db: Snapshot, row: Document): (r: Document)
    requires UserResolves(db, row)
    ensures r.Keys == row.Keys
    ensures forall k :: k in row && k != "user" ==> r[k] == row[k]
    ensures r["user"].Obj? && HasId(r["user"].fields, row["user"].rid)
    ensures r["user"].fields in Rows(db, row["user"].rid.table)
    ensures SessionFields(row) ==> IsSurrealSession(r)
  {
    row["user" := Obj(FindById(Rows(db, row["user"].rid.table), row["user"].rid).value)]
  }

  /** `DELETE` of one record: the session table loses record `sessionId`, if it has it. */
  function DeleteSession(t: DatabaseTables, db: Snapshot, sessionId: string): (db': Snapshot)
    ensures forall table :: table != t.sessionTableName ==> Rows(db', table) == Rows(db, table)
    ensures forall row :: row in Rows(db', t.sessionTableName) <==>
      row in Rows(db, t.sessionTableName) && !HasId(row, SessionRecordId(t, sessionId))
    ensures FindById(Rows(db, t.sessionTableName), SessionRecordId(t, sessionId)).None? ==>
      Rows(db', t.sessionTableName) == Rows(db, t.sessionTableName)
    ensures Valid(t, db) ==> Valid(t, db')
  {
    var rows := Rows(db, t.sessionTableName);
    var keep := Without(SessionRecordId(t, sessionId));
    var db' := db[t.sessionTableName := Filter(rows, keep)];
    assert Valid(t, db) ==> Valid(t, db') by {
      if Valid(t, db) { FilterKeyed(rows, keep, t.sessionTableName); }
    }
    assert FindById(rows, SessionRecordId(t, sessionId)).None? ==> Filter(rows, keep) == rows by {
      if FindById(rows, SessionRecordId(t, sessionId)).None? { FilterKeepsAll(rows, keep); }
    }
    db'
  }

  /** `DELETE ... WHERE user = ...`: the session table loses exactly the sessions
      of user `userId`. */
  function DeleteUserSessions(t: DatabaseTables, db: Snapshot, userId: string): (db': Snapshot)
    ensures forall table :: table != t.sessionTableName ==> Rows(db', table) == Rows(db, table)
    ensures forall row :: row in Rows(db', t.sessionTableName) <==>
      row in Rows(db, t.sessionTableName) && !RefersTo(row, UserRecordId(t, userId))
    ensures Valid(t, db) ==> Valid(t, db')
  {
    var rows := Rows(db, t.sessionTableName);
    var keep := NotOwnedBy(UserRecordId(t, userId));
    var db' := db[t.sessionTableName := Filter(rows, keep)];
    assert Valid(t, db) ==> Valid(t, db') by {
      if Valid(t, db) { FilterKeyed(rows, keep, t.sessionTableName); }
    }
    db'
  }

  /** The content `setSession` creates: the two record ids and the expiry, then the
      attributes spread over them, so that an attribute of the same name wins. */
  function SessionContent(t: DatabaseTables, session: DatabaseSession): (content: Document)
    ensures content.Keys == SessionKeys + session.attributes.Keys
    ensures forall k :: k in session.attributes ==> content[k] == session.attributes[k]
    ensures "id" !in session.attributes ==> content["id"] == Link(SessionRecordId(t, session.id))
    ensures "user" !in session.attributes ==> content["user"] == Link(UserRecordId(t, session.userId))
    ensures "expires_at" !in session.attributes ==> content["expires_at"] == Time(session.expiresAt)
  {
    map[
      "id" := Link(SessionRecordId(t, session.id)),
      "user" := Link(UserRecordId(t, session.userId)),
      "expires_at" := Time(session.expiresAt)
    ] + session.attributes
  }

  /** `CREATE` with this content is defined: its id is a new record of the session table. */
  predicate CanCreate(t: DatabaseTables, db: Snapshot, session: DatabaseSession)
  {
    var content := SessionContent(t, session);
    && IdOf(content).Some? && IdOf(content).value.table == t.sessionTableName
    && FindById(Rows(db, t.sessionTableName), IdOf(content).value).None?
  }

  /** `CREATE ... CONTENT`: the content becomes the last row of the session table. */
  function SetSession(t: DatabaseTables, db: Snapshot, session: DatabaseSession): (db': Snapshot)
    requires CanCreate(t, db, session)
    ensures forall table :: table != t.sessionTableName ==> Rows(db', table) == Rows(db, table)
    ensures Rows(db', t.sessionTableName) == Rows(db, t.sessionTableName) + [SessionContent(t, session)]
    ensures Valid(t, db) && StoredSession(t, SessionContent(t, session)) ==> Valid(t, db')
  {
    var rows := Rows(db, t.sessionTableName);
    var db' := db[t.sessionTableName := rows + [SessionContent(t, session)]];
    assert Valid(t, db) && StoredSession(t, SessionContent(t, session)) ==> Valid(t, db') by {
      if Valid(t, db) && StoredSession(t, SessionContent(t, session)) {
        KeyedAppend(rows, t.sessionTableName, SessionContent(t, session));
      }
    }
    db'
  }

  /** One row under `UPDATE rid SET expires_at = ...`: record `rid` gets the new
      expiry, any other row stays as it is. */
  function Bump(row: Document, rid: RecordId, expiresAt: int): (r: Document)
    ensures IdOf(r) == IdOf(row)
    ensures forall k :: k in row && k != "expires_at" ==> k in r && r[k] == row[k]
    ensures HasId(row, rid) ==> r.Keys == row.Keys + {"expires_at"} && r["expires_at"] == Time(expiresAt)
    ensures !HasId(row, rid) ==> r == row
  {
    if HasId(row, rid) then row["expires_at" := Time(expiresAt)] else row
  }

  /** The rows under `UPDATE rid SET expires_at = ...`, in the same order. */
  function SetExpiry(rows: seq<Document>, rid: RecordId, expiresAt: int): (r: seq<Document>)
    ensures |r| == |rows|
    ensures forall i :: 0 <= i < |r| ==> r[i] == Bump(rows[i], rid, expiresAt)
  {
    if rows == [] then [] else [Bump(rows[0], rid, expiresAt)] + SetExpiry(rows[1..], rid, expiresAt)
  }

  /** `UPDATE ... SET expires_at`: the session's expiry is replaced; nothing else changes. */
  function UpdateSessionExpiration(t: DatabaseTables, db: Snapshot, sessionId: string, expiresAt: int): (db': Snapshot)
    requires FindById(Rows(db, t.sessionTableName), SessionRecordId(t, sessionId)).Some?
    ensures forall table :: table != t.sessionTableName ==> Rows(db', table) == Rows(db, table)
    ensures Rows(db', t.sessionTableName) == SetExpiry(Rows(db, t.sessionTableName), SessionRecordId(t, sessionId), expiresAt)
    ensures Valid(t, db) ==> Valid(t, db')
  {
    var rows := Rows(db, t.sessionTableName);
    var rows' := SetExpiry(rows, SessionRecordId(t, sessionId), expiresAt);
    var db' := db[t.sessionTableName := rows'];
    assert Valid(t, db) ==> Valid(t, db') by {
      if Valid(t, db) {
        forall row | row in rows'
          ensures StoredSession(t, row)
        {
          var i :| 0 <= i < |rows'| && rows'[i] == row;
          assert rows[i] in rows;
        }
      }
    }
    db'
  }

  /** `DELETE ... WHERE expires_at < now`: exactly the expired sessions go. */
  function DeleteExpiredSessions(t: DatabaseTables, db: Snapshot, now: int): (db': Snapshot)
    ensures forall table :: table != t.sessionTableName ==> Rows(db', table) == Rows(db, table)
    ensures forall row :: row in Rows(db', t.sessionTableName) <==>
      row in Rows(db, t.sessionTableName) && !Expired(row, now)
    ensures Valid(t, db) ==> Valid(t, db')
  {
    var rows := Rows(db, t.sessionTableName);
    var keep := Unexpired(now);
    var db' := db[t.sessionTableName := Filter(rows, keep)];
    assert Valid(t, db) ==> Valid(t, db') by {
      if Valid(t, db) { FilterKeyed(rows, keep, t.sessionTableName); }
    }
    db'
  }

  /** Reading session `sessionId` is defined: if the record exists, it has an
      expiry date and its user link, into whatever table, resolves. */
  predicate SessionReadable(t: DatabaseTables, db: Snapshot, sessionId: string)
  {
    match FindById(Rows(db, t.sessionTableName), SessionRecordId(t, sessionId))
    case None => true
    case Some(row) => Fetchable(db, row)
  }

  /** `SELECT * FROM rid FETCH user`, then both halves mapped; the null pair when
      there is no such record. */
  function GetSessionAndUser(t: DatabaseTables, db: Snapshot, sessionId: string): (r: (Option<DatabaseSession>, Option<DatabaseUser>))
    requires SessionReadable(t, db, sessionId)
    ensures r.0.None? <==> FindById(Rows(db, t.sessionTableName), SessionRecordId(t, sessionId)).None?
    ensures r.0.None? <==> r.1.None?
    ensures r.0.Some? ==>
      var row := FindById(Rows(db, t.sessionTableName), SessionRecordId(t, sessionId)).value;
      && r.0.value.id == sessionId
      && row["user"].rid.key == r.0.value.userId
      && r.0.value.expiresAt == row["expires_at"].instant
      && r.0.value.attributes == row - SessionKeys
      && r.1.value == MapToLuciaDatabaseUser(FindById(Rows(db, row["user"].rid.table), row["user"].rid).value)
      && r.1.value.id == r.0.value.userId
  {
    var result := FindById(Rows(db, t.sessionTableName), SessionRecordId(t, sessionId));
    if result.None? then (None, None)
    else
      var fetched := FetchUser(db, result.value);
      (Some(MapToLuciaDatabaseSession(fetched)), Some(MapToLuciaDatabaseUser(fetched["user"].fields)))
  }

  /** The fields the codec needs from a stored session, besides its user. */
  predicate SessionFields(row: Document)
  {
    IdOf(row).Some? && "expires_at" in row && row["expires_at"].Time?
  }

  /** The codec accepts the row once its user is fetched. */
  predicate Fetchable(db: Snapshot, row: Document)
  {
    SessionFields(row) && UserResolves(db, row)
  }

  /** One row with its user fetched, mapped by the codec. */
  function FetchAndMap(db: Snapshot, row: Document): DatabaseSession
    requires Fetchable(db, row)
  {
    MapToLuciaDatabaseSession(FetchUser(db, row))
  }

  /** `FetchAndMap` against `db`, as a function of the row. */
  function Fetcher(db: Snapshot): Document --> DatabaseSession
  {
    row requires Fetchable(db, row) => FetchAndMap(db, row)
  }

  /** Each row fetched and mapped, in order (`result.map(...)`). */
  function MapFetched(db: Snapshot, rows: seq<Document>): (r: seq<DatabaseSession>)
    requires forall row :: row in rows ==> Fetchable(db, row)
    ensures |r| == |rows|
    ensures forall i :: 0 <= i < |rows| ==> r[i] == FetchAndMap(db, rows[i])
  {
    MapSeq(rows, Fetcher(db))
  }

  /** Listing the sessions of `userId` is defined: each of them has a record id and
      an expiry date, and its user link resolves. */
  predicate UserSessionsReadable(t: DatabaseTables, db: Snapshot, userId: string)
  {
    forall row :: row in Rows(db, t.sessionTableName) && RefersTo(row, UserRecordId(t, userId)) ==>
      Fetchable(db, row)
  }

  /** `SELECT * FROM table WHERE user = ... FETCH user`, each row mapped; `[]` when
      the user has no sessions. */
  function GetUserSessions(t: DatabaseTables, db: Snapshot, userId: string): (r: seq<DatabaseSession>)
    requires UserSessionsReadable(t, db, userId)
    ensures r == [] <==> forall row :: row in Rows(db, t.sessionTableName) ==> !RefersTo(row, UserRecordId(t, userId))
    ensures forall i :: 0 <= i < |r| ==> r[i].userId == userId
  {
    var result := Filter(Rows(db, t.sessionTableName), OwnedBy(UserRecordId(t, userId)));
    if |result| == 0 then []
    else
      assert result[0] in result;
      assert forall i :: 0 <= i < |result| ==> result[i] in result;
      MapFetched(db, result)
  }
}
