/** What the adapter's operations promise about each other: the stored session
    reads back as it was set, and each write is seen by the reads after it. */
module Properties {
  import opened Records
  import opened Helpers
  import opened Tables
  import opened Store

  /** A row is the record of at most one id. */
  lemma HasIdUnique(row: Document, a: RecordId, b: RecordId)
    requires HasId(row, a) && HasId(row, b)
    ensures a == b
  {
    assert Link(a) == Link(b);
  }

  /** The codec undoes `setSession`'s content: with the attributes clear of the
      three lifted names and the user link fetched, the session maps back to itself. */
  lemma ContentRoundTrip(t: DatabaseTables, session: DatabaseSession, user: Document)
    requires session.attributes.Keys !! SessionKeys
    requires HasId(user, UserRecordId(t, session.userId))
    ensures IsSurrealSession(SessionContent(t, session)["user" := Obj(user)])
    ensures MapToLuciaDatabaseSession(SessionContent(t, session)["user" := Obj(user)]) == session
  {
    var fetched := SessionContent(t, session)["user" := Obj(user)];
    assert fetched - SessionKeys == session.attributes;
  }

  /** `UPDATE` keeps every lookup: it finds the same record, with its expiry replaced
      when it is the updated one. */
  lemma {:induction false} FindAfterSetExpiry(rows: seq<Document>, rid: RecordId, expiresAt: int, x: RecordId)
    ensures FindById(SetExpiry(rows, rid, expiresAt), x) ==
      if FindById(rows, x).Some? then Some(Bump(FindById(rows, x).value, rid, expiresAt)) else None
  {
    if rows != [] {
      var r := SetExpiry(rows, rid, expiresAt);
      assert r[1..] == SetExpiry(rows[1..], rid, expiresAt);
      assert HasId(r[0], x) <==> HasId(rows[0], x);
      FindAfterSetExpiry(rows[1..], rid, expiresAt, x);
    }
  }

  /** After `setSession` of a new session whose user exists, `getSessionAndUser`
      returns that session, and the stored user mapped. */
  lemma SetThenGet(t: DatabaseTables, db: Snapshot, session: DatabaseSession)
    requires session.attributes.Keys !! SessionKeys
    requires FindById(Rows(db, t.sessionTableName), SessionRecordId(t, session.id)).None?
    requires FindById(Rows(db, t.userTableName), UserRecordId(t, session.userId)).Some?
    ensures CanCreate(t, db, session)
    ensures SessionReadable(t, SetSession(t, db, session), session.id)
    ensures GetSessionAndUser(t, SetSession(t, db, session), session.id) ==
      (Some(session), Some(MapToLuciaDatabaseUser(FindById(Rows(db, t.userTableName), UserRecordId(t, session.userId)).value)))
  {
    var content := SessionContent(t, session);
    var sid, uid := SessionRecordId(t, session.id), UserRecordId(t, session.userId);
    assert IdOf(content) == Some(sid);
    var db' := SetSession(t, db, session);
    FindAfterAppend(Rows(db, t.sessionTableName), content, sid);
    assert FindById(Rows(db', t.sessionTableName), sid) == Some(content);
    var user := FindById(Rows(db, t.userTableName), uid).value;
    FindAfterAppend(Rows(db, t.sessionTableName), content, uid);
    assert FindById(Rows(db', t.userTableName), uid) == Some(user);
    assert FetchUser(db', content) == content["user" := Obj(user)];
    ContentRoundTrip(t, session, user);
  }

  /** Mapping rows fetched against two databases that agree on each row gives the
      same sessions. */
  lemma MapFetchedAgree(db: Snapshot, db': Snapshot, rows: seq<Document>)
    requires forall x :: x in rows ==> Fetchable(db, x)
    requires forall x :: x in rows ==> Fetchable(db', x) && FetchAndMap(db', x) == FetchAndMap(db, x)
    ensures MapFetched(db', rows) == MapFetched(db, rows)
  {
    var lhs, rhs := MapFetched(db', rows), MapFetched(db, rows);
    forall i | 0 <= i < |rows|
      ensures lhs[i] == rhs[i]
    {
      assert rows[i] in rows;
    }
  }

  /** Mapping rows fetched against a database whose user lookups agree with another's
      gives the same sessions, and a row added at the end adds its session at the end. */
  lemma MapFetchedAppend(db: Snapshot, db': Snapshot, rows: seq<Document>, row: Document)
    requires forall x :: x in rows ==> Fetchable(db, x)
    requires forall x :: x in rows ==> Fetchable(db', x) && FetchAndMap(db', x) == FetchAndMap(db, x)
    requires Fetchable(db', row)
    ensures MapFetched(db', rows + [row]) == MapFetched(db, rows) + [FetchAndMap(db', row)]
  {
    var f := Fetcher(db');
    MapSeqSnoc(rows, row, f);
    assert MapFetched(db', rows + [row]) == MapSeq(rows + [row], f);
    assert MapFetched(db', rows) == MapSeq(rows, f);
    MapFetchedAgree(db, db', rows);
  }

  /** After `setSession` of a new session whose user exists, `getUserSessions` of
      that user returns what it returned before, followed by the new session. */
  lemma SetThenListed(t: DatabaseTables, db: Snapshot, session: DatabaseSession)
    requires session.attributes.Keys !! SessionKeys
    requires FindById(Rows(db, t.sessionTableName), SessionRecordId(t, session.id)).None?
    requires FindById(Rows(db, t.userTableName), UserRecordId(t, session.userId)).Some?
    requires UserSessionsReadable(t, db, session.userId)
    ensures CanCreate(t, db, session)
    ensures UserSessionsReadable(t, SetSession(t, db, session), session.userId)
    ensures GetUserSessions(t, SetSession(t, db, session), session.userId) ==
      GetUserSessions(t, db, session.userId) + [session]
  {
    var content := SessionContent(t, session);
    var uid := UserRecordId(t, session.userId);
    assert IdOf(content) == Some(SessionRecordId(t, session.id));
    var db' := SetSession(t, db, session);
    var rows := Rows(db, t.sessionTableName);
    var user := FindById(Rows(db, t.userTableName), uid).value;
    FindAfterAppend(rows, content, uid);
    assert FindById(Rows(db', t.userTableName), uid) == Some(user);
    assert UserSessionsReadable(t, db', session.userId);
    var keep := OwnedBy(uid);
    FilterAppend(rows, content, keep);
    var found := Filter(rows, keep);
    assert Filter(rows + [content], keep) == found + [content];
    forall x | x in found
      ensures Fetchable(db, x)
      ensures Fetchable(db', x) && FetchAndMap(db', x) == FetchAndMap(db, x)
    {
      assert FetchUser(db', x) == FetchUser(db, x);
    }
    MapFetchedAppend(db, db', found, content);
    assert FetchUser(db', content) == content["user" := Obj(user)];
    ContentRoundTrip(t, session, user);
  }

  /** After `deleteSession`, record `sessionId` is gone and every other lookup is as before. */
  lemma DeleteSessionLookup(t: DatabaseTables, db: Snapshot, sessionId: string, rid: RecordId)
    requires Valid(t, db)
    ensures FindById(Rows(DeleteSession(t, db, sessionId), t.sessionTableName), rid) ==
      if rid == SessionRecordId(t, sessionId) then None else FindById(Rows(db, t.sessionTableName), rid)
  {
    var rows := Rows(db, t.sessionTableName);
    var sid := SessionRecordId(t, sessionId);
    FindAfterFilter(rows, t.sessionTableName, Without(sid), rid);
    if FindById(rows, rid).Some? && rid != sid {
      var row := FindById(rows, rid).value;
      if HasId(row, sid) {
        HasIdUnique(row, rid, sid);
      }
    }
  }

  /** After `deleteSession`, `getSessionAndUser` of that id returns the null pair. */
  lemma DeleteThenGet(t: DatabaseTables, db: Snapshot, sessionId: string)
    ensures SessionReadable(t, DeleteSession(t, db, sessionId), sessionId)
    ensures GetSessionAndUser(t, DeleteSession(t, db, sessionId), sessionId) == (None, None)
  {
  }

  /** After `deleteUserSessions`, a lookup finds nothing of that user's and finds
      every other session as before. */
  lemma DeleteUserSessionsLookup(t: DatabaseTables, db: Snapshot, userId: string, rid: RecordId)
    requires Valid(t, db)
    ensures var found := FindById(Rows(db, t.sessionTableName), rid);
      FindById(Rows(DeleteUserSessions(t, db, userId), t.sessionTableName), rid) ==
      if found.Some? && RefersTo(found.value, UserRecordId(t, userId)) then None else found
  {
    FindAfterFilter(Rows(db, t.sessionTableName), t.sessionTableName, NotOwnedBy(UserRecordId(t, userId)), rid);
  }

  /** After `deleteUserSessions`, `getUserSessions` of that user is empty. */
  lemma DeleteUserSessionsThenList(t: DatabaseTables, db: Snapshot, userId: string)
    ensures UserSessionsReadable(t, DeleteUserSessions(t, db, userId), userId)
    ensures GetUserSessions(t, DeleteUserSessions(t, db, userId), userId) == []
  {
  }

  /** The codec reads a session whose expiry was replaced as the same session with
      the new `expiresAt`, whichever copy of its user record is fetched. */
  lemma MapAfterBump(row: Document, user: Document, user': Document, expiresAt: int)
    requires SessionFields(row) && "user" in row && row["user"].Link?
    requires HasId(user, row["user"].rid) && HasId(user', row["user"].rid)
    ensures IsSurrealSession(row["user" := Obj(user)])
    ensures IsSurrealSession(row["expires_at" := Time(expiresAt)]["user" := Obj(user')])
    ensures MapToLuciaDatabaseSession(row["expires_at" := Time(expiresAt)]["user" := Obj(user')]) ==
      MapToLuciaDatabaseSession(row["user" := Obj(user)]).(expiresAt := expiresAt)
  {
    var before := row["user" := Obj(user)];
    var after := row["expires_at" := Time(expiresAt)]["user" := Obj(user')];
    assert after - SessionKeys == before - SessionKeys;
  }

  /** `UPDATE` of session `sid` leaves the record a lookup of any other id `x` finds. */
  lemma UpdateKeepsOther(t: DatabaseTables, db: Snapshot, sessionId: string, expiresAt: int, x: RecordId)
    requires FindById(Rows(db, t.sessionTableName), SessionRecordId(t, sessionId)).Some?
    requires x != SessionRecordId(t, sessionId)
    ensures FindById(Rows(UpdateSessionExpiration(t, db, sessionId, expiresAt), x.table), x) ==
      FindById(Rows(db, x.table), x)
  {
    var rows := Rows(db, t.sessionTableName);
    var sid := SessionRecordId(t, sessionId);
    if x.table == t.sessionTableName {
      FindAfterSetExpiry(rows, sid, expiresAt, x);
      var found := FindById(rows, x);
      if found.Some? && HasId(found.value, sid) {
        HasIdUnique(found.value, x, sid);
      }
    }
  }

  /** After `updateSessionExpiration`, `getSessionAndUser` returns the same session
      with only its expiry replaced, and the same user unless the session's user
      link is the session's own record. */
  lemma UpdateThenGet(t: DatabaseTables, db: Snapshot, sessionId: string, expiresAt: int)
    requires FindById(Rows(db, t.sessionTableName), SessionRecordId(t, sessionId)).Some?
    requires SessionReadable(t, db, sessionId)
    ensures SessionReadable(t, UpdateSessionExpiration(t, db, sessionId, expiresAt), sessionId)
    ensures GetSessionAndUser(t, UpdateSessionExpiration(t, db, sessionId, expiresAt), sessionId).0 ==
      Some(GetSessionAndUser(t, db, sessionId).0.value.(expiresAt := expiresAt))
    ensures FindById(Rows(db, t.sessionTableName), SessionRecordId(t, sessionId)).value["user"].rid != SessionRecordId(t, sessionId) ==>
      GetSessionAndUser(t, UpdateSessionExpiration(t, db, sessionId, expiresAt), sessionId).1 ==
      GetSessionAndUser(t, db, sessionId).1
  {
    var rows := Rows(db, t.sessionTableName);
    var sid := SessionRecordId(t, sessionId);
    var db' := UpdateSessionExpiration(t, db, sessionId, expiresAt);
    var row := FindById(rows, sid).value;
    FindAfterSetExpiry(rows, sid, expiresAt, sid);
    var row' := row["expires_at" := Time(expiresAt)];
    assert FindById(Rows(db', t.sessionTableName), sid) == Some(row');
    var link := row["user"].rid;
    if link.table == t.sessionTableName {
      FindAfterSetExpiry(rows, sid, expiresAt, link);
    }
    var user := FindById(Rows(db, link.table), link).value;
    var user' := FindById(Rows(db', link.table), link).value;
    assert FetchUser(db', row') == row'["user" := Obj(user')];
    MapAfterBump(row, user, user', expiresAt);
    if link != sid {
      UpdateKeepsOther(t, db, sessionId, expiresAt, link);
    }
  }

  /** After `deleteExpiredSessions(now)`, `getSessionAndUser` returns the null pair
      for a session that had expired before `now`, and what it returned before for
      any other. */
  lemma SweepThenGet(t: DatabaseTables, db: Snapshot, now: int, sessionId: string)
    requires Valid(t, db)
    requires t.sessionTableName != t.userTableName
    requires SessionReadable(t, db, sessionId)
    ensures SessionReadable(t, DeleteExpiredSessions(t, db, now), sessionId)
    ensures var before := GetSessionAndUser(t, db, sessionId);
      GetSessionAndUser(t, DeleteExpiredSessions(t, db, now), sessionId) ==
      if before.0.Some? && before.0.value.expiresAt < now then (None, None) else before
  {
    var rows := Rows(db, t.sessionTableName);
    FindAfterFilter(rows, t.sessionTableName, Unexpired(now), SessionRecordId(t, sessionId));
  }

  /** Every session `getUserSessions` lists is the one `getSessionAndUser` returns
      for its id, with that user. */
  lemma ListedSessionsRetrievable(t: DatabaseTables, db: Snapshot, userId: string, i: nat)
    requires Valid(t, db)
    requires UserSessionsReadable(t, db, userId)
    requires i < |GetUserSessions(t, db, userId)|
    ensures var listed := GetUserSessions(t, db, userId)[i];
      && SessionReadable(t, db, listed.id)
      && GetSessionAndUser(t, db, listed.id).0 == Some(listed)
      && GetSessionAndUser(t, db, listed.id).1.value.id == userId
  {
    var rows := Rows(db, t.sessionTableName);
    var found := Filter(rows, OwnedBy(UserRecordId(t, userId)));
    var row := found[i];
    assert row in found;
    FindInKeyed(rows, t.sessionTableName, row);
    var listed := GetUserSessions(t, db, userId)[i];
    assert IdOf(row).value == SessionRecordId(t, listed.id);
  }

  /** `getUserSessions` lists each of the user's sessions once: no two listed
      sessions share an id. */
  lemma ListedDistinct(t: DatabaseTables, db: Snapshot, userId: string)
    requires Valid(t, db)
    requires UserSessionsReadable(t, db, userId)
    ensures var r := GetUserSessions(t, db, userId);
      forall i, j :: 0 <= i < j < |r| ==> r[i].id != r[j].id
  {
    var rows := Rows(db, t.sessionTableName);
    var found := Filter(rows, OwnedBy(UserRecordId(t, userId)));
    FilterKeyed(rows, OwnedBy(UserRecordId(t, userId)), t.sessionTableName);
    var r := GetUserSessions(t, db, userId);
    forall i, j | 0 <= i < j < |r|
      ensures r[i].id != r[j].id
    {
      assert found[i] in found && found[j] in found;
      assert IdOf(found[i]) != IdOf(found[j]);
    }
  }

  /** Every session of the user is among those `getUserSessions` lists. */
  lemma UserSessionsComplete(t: DatabaseTables, db: Snapshot, userId: string, sessionId: string)
    requires UserSessionsReadable(t, db, userId)
    requires FindById(Rows(db, t.sessionTableName), SessionRecordId(t, sessionId)).Some?
    requires RefersTo(FindById(Rows(db, t.sessionTableName), SessionRecordId(t, sessionId)).value, UserRecordId(t, userId))
    ensures exists i :: 0 <= i < |GetUserSessions(t, db, userId)| && GetUserSessions(t, db, userId)[i].id == sessionId
  {
    var rows := Rows(db, t.sessionTableName);
    var row := FindById(rows, SessionRecordId(t, sessionId)).value;
    var found := Filter(rows, OwnedBy(UserRecordId(t, userId)));
    assert row in found;
    var j :| 0 <= j < |found| && found[j] == row;
    assert GetUserSessions(t, db, userId)[j].id == sessionId;
  }
}
