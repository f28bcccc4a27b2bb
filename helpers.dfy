/** The record codec: database documents to the session library's records. */
module Helpers {
  import opened Records

  /** Keeps only the keys of the session's and its user's record ids, keeps the expiry
      as it is, and gathers every other field into the attributes. */
  function MapToLuciaDatabaseSession(session: Document): (r: DatabaseSession)
    requires IsSurrealSession(session)
    ensures r.id == session["id"].rid.key
    ensures r.userId == session["user"].fields["id"].rid.key
    ensures r.expiresAt == session["expires_at"].instant
    ensures forall k :: k in r.attributes <==> k in session && k !in SessionKeys
    ensures forall k :: k in r.attributes ==> r.attributes[k] == session[k]
  {
    DatabaseSession(
      session["id"].rid.key,
      session["user"].fields["id"].rid.key,
      session["expires_at"].instant,
      session - SessionKeys)
  }

  /** Keeps only the key of the user's record id; every other field is an attribute. */
  function MapToLuciaDatabaseUser(user: Document): (r: DatabaseUser)
    requires IsSurrealUser(user)
    ensures r.id == user["id"].rid.key
    ensures forall k :: k in r.attributes <==> k in user && k != "id"
    ensures forall k :: k in r.attributes ==> r.attributes[k] == user[k]
  {
    DatabaseUser(user["id"].rid.key, user - {"id"})
  }

  /** The session's user id and the id of the nested user agree. */
  lemma SessionUserIdIsUserId(session: Document)
    requires IsSurrealSession(session)
    ensures MapToLuciaDatabaseSession(session).userId == MapToLuciaDatabaseUser(session["user"].fields).id
  {
  }

  /** Two documents that differ at most in the tables of their record ids. */
  predicate SameUpToTables(a: Document, b: Document)
    requires IsSurrealSession(a) && IsSurrealSession(b)
  {
    var ua, ub := a["user"].fields, b["user"].fields;
    && a.Keys == b.Keys
    && (forall k :: k in a && k != "id" && k != "user" ==> a[k] == b[k])
    && a["id"].rid.key == b["id"].rid.key
    && ua.Keys == ub.Keys
    && (forall k :: k in ua && k != "id" ==> ua[k] == ub[k])
    && ua["id"].rid.key == ub["id"].rid.key
  }

  /** The codec does no validation of tables: documents that differ only in the
      tables of their record ids map to the same records. */
  lemma MappingIgnoresTables(a: Document, b: Document)
    requires IsSurrealSession(a) && IsSurrealSession(b)
    requires SameUpToTables(a, b)
    ensures MapToLuciaDatabaseSession(a) == MapToLuciaDatabaseSession(b)
    ensures MapToLuciaDatabaseUser(a["user"].fields) == MapToLuciaDatabaseUser(b["user"].fields)
  {
    assert a - SessionKeys == b - SessionKeys;
    assert a["user"].fields - {"id"} == b["user"].fields - {"id"};
  }
}
