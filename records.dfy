/** Record shapes on both sides of the adapter: the database's documents, whose
    identifiers are composite record ids, and the session library's flat records. */
module Records {

  datatype Option<+T> = None | Some(value: T)

  /** A database record identifier: the table it lives in and its key in that table. */
  datatype RecordId = RecordId(table: string, key: string)

  /** A field value of a stored document. Dates are integer instants; a record link
      holds a RecordId; a fetched link becomes a nested object. */
  datatype Value =
    | Null
    | Bool(b: bool)
    | Num(n: int)
    | Str(s: string)
    | Time(instant: int)
    | Link(rid: RecordId)
    | Arr(items: seq<Value>)
    | Obj(fields: map<string, Value>)

  /** A document: an object with named fields, as the database returns it. */
  type Document = map<string, Value>

  /** The two table names the adapter is configured with. */
  datatype DatabaseTables = DatabaseTables(sessionTableName: string, userTableName: string)

  /** The session fields the codec lifts out; every other field is an attribute. */
  const SessionKeys: set<string> := {"id", "user", "expires_at"}

  /** A user document: a record id under "id", anything else beside it. */
  predicate IsSurrealUser(user: Document)
  {
    "id" in user && user["id"].Link?
  }

  /** A session document as it comes back with its user fetched: a record id, an
      expiry date and the owning user document, anything else beside them. */
  predicate IsSurrealSession(session: Document)
  {
    && "id" in session && session["id"].Link?
    && "expires_at" in session && session["expires_at"].Time?
    && "user" in session && session["user"].Obj? && IsSurrealUser(session["user"].fields)
  }

  /** The session library's session record. */
  datatype DatabaseSession = DatabaseSession(id: string, userId: string, expiresAt: int, attributes: Document)

  /** The session library's user record. */
  datatype DatabaseUser = DatabaseUser(id: string, attributes: Document)
}
