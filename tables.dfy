/** What the database's statements do to the rows of one table: selecting and
    deleting by a condition, and finding a record by its id. A table is the
    sequence of its rows in scan order. */
module Tables {
  import opened Records

  /** The record id in a row's "id" field, if it holds one. */
  function IdOf(row: Document): Option<RecordId>
  {
    if "id" in row && row["id"].Link? then Some(row["id"].rid) else None
  }

  /** The row is the record `rid`. */
  predicate HasId(row: Document, rid: RecordId)
  {
    "id" in row && row["id"] == Link(rid)
  }

  /** Every row of the table is a record of `table`, and no two rows share an id. */
  predicate Keyed(rows: seq<Document>, table: string)
  {
    && (forall i :: 0 <= i < |rows| ==> IdOf(rows[i]).Some? && IdOf(rows[i]).value.table == table)
    && (forall i, j :: 0 <= i < j < |rows| ==> IdOf(rows[i]) != IdOf(rows[j]))
  }

  /** The rows a `WHERE` condition keeps, in table order. */
  function Filter(rows: seq<Document>, keep: Document -> bool): (r: seq<Document>)
    ensures |r| <= |rows|
    ensures forall row :: row in r <==> row in rows && keep(row)
  {
    if rows == [] then []
    else if keep(rows[0]) then [rows[0]] + Filter(rows[1..], keep)
    else Filter(rows[1..], keep)
  }

  /** The record `rid`, if the table holds it. */
  function FindById(rows: seq<Document>, rid: RecordId): (r: Option<Document>)
    ensures r.None? <==> forall row :: row in rows ==> !HasId(row, rid)
    ensures r.Some? ==> r.value in rows && HasId(r.value, rid)
  {
    if rows == [] then None
    else if HasId(rows[0], rid) then Some(rows[0])
    else FindById(rows[1..], rid)
  }

  /** `f` applied to each element, in order (`xs.map(f)`). */
  function MapSeq<A, B>(xs: seq<A>, f: A --> B): (r: seq<B>)
    requires forall x :: x in xs ==> f.requires(x)
    ensures |r| == |xs|
    ensures forall i :: 0 <= i < |xs| ==> r[i] == f(xs[i])
  {
    if xs == [] then [] else [f(xs[0])] + MapSeq(xs[1..], f)
  }

  /** Mapping after appending an element appends its image. */
  lemma MapSeqSnoc<A, B>(xs: seq<A>, x: A, f: A --> B)
    requires forall y :: y in xs ==> f.requires(y)
    requires f.requires(x)
    ensures MapSeq(xs + [x], f) == MapSeq(xs, f) + [f(x)]
  {
    var ys := xs + [x];
    var lhs, rhs := MapSeq(ys, f), MapSeq(xs, f) + [f(x)];
    forall i | 0 <= i < |ys|
      ensures lhs[i] == rhs[i]
    {
      if i < |xs| {
        assert ys[i] == xs[i];
      }
    }
  }

  /** A condition that every row meets removes nothing. */
  lemma {:induction false} FilterKeepsAll(rows: seq<Document>, keep: Document -> bool)
    requires forall row :: row in rows ==> keep(row)
    ensures Filter(rows, keep) == rows
  {
    if rows != [] {
      FilterKeepsAll(rows[1..], keep);
    }
  }

  /** Filtering keeps a table keyed. */
  lemma {:induction false} FilterKeyed(rows: seq<Document>, keep: Document -> bool, table: string)
    requires Keyed(rows, table)
    ensures Keyed(Filter(rows, keep), table)
  {
    if rows != [] {
      var rest := Filter(rows[1..], keep);
      FilterKeyed(rows[1..], keep, table);
      if keep(rows[0]) {
        forall j | 0 <= j < |rest|
          ensures IdOf(rows[0]) != IdOf(rest[j])
        {
          assert rest[j] in rows[1..];
          var k :| 0 <= k < |rows[1..]| && rows[1..][k] == rest[j];
          assert rows[k + 1] == rest[j];
        }
        var r := [rows[0]] + rest;
        forall i, j | 0 <= i < j < |r|
          ensures IdOf(r[i]) != IdOf(r[j])
        {
          if i > 0 {
            assert r[i] == rest[i - 1] && r[j] == rest[j - 1];
          } else {
            assert r[j] == rest[j - 1];
          }
        }
      }
    }
  }

  /** In a keyed table, looking up a row's own id finds that row. */
  lemma {:induction false} FindInKeyed(rows: seq<Document>, table: string, row: Document)
    requires Keyed(rows, table)
    requires row in rows
    ensures IdOf(row).Some?
    ensures FindById(rows, IdOf(row).value) == Some(row)
  {
    var k :| 0 <= k < |rows| && rows[k] == row;
    if k == 0 {
    } else {
      assert IdOf(rows[0]) != IdOf(row);
      assert Keyed(rows[1..], table) by {
        forall i | 0 <= i < |rows[1..]|
          ensures rows[1..][i] == rows[i + 1]
        {
        }
      }
      assert rows[1..][k - 1] == row;
      FindInKeyed(rows[1..], table, row);
    }
  }

  /** In a keyed table, filtering keeps the record `rid` exactly when the condition
      keeps it, and leaves every other lookup as it was. */
  lemma {:induction false} FindAfterFilter(rows: seq<Document>, table: string, keep: Document -> bool, rid: RecordId)
    requires Keyed(rows, table)
    ensures FindById(Filter(rows, keep), rid) ==
      if FindById(rows, rid).Some? && keep(FindById(rows, rid).value) then FindById(rows, rid) else None
  {
    if rows != [] {
      assert Keyed(rows[1..], table) by {
        forall i | 0 <= i < |rows[1..]|
          ensures rows[1..][i] == rows[i + 1]
        {
        }
      }
      FindAfterFilter(rows[1..], table, keep, rid);
      if HasId(rows[0], rid) {
        forall row | row in rows[1..]
          ensures !HasId(row, rid)
        {
          var k :| 0 <= k < |rows[1..]| && rows[1..][k] == row;
          assert rows[k + 1] == row;
          assert IdOf(rows[0]) != IdOf(rows[k + 1]);
        }
        if keep(rows[0]) {
          assert Filter(rows, keep) == [rows[0]] + Filter(rows[1..], keep);
        }
      } else if keep(rows[0]) {
        assert Filter(rows, keep) == [rows[0]] + Filter(rows[1..], keep);
        assert ([rows[0]] + Filter(rows[1..], keep))[1..] == Filter(rows[1..], keep);
      }
    }
  }

  /** A row added at the end of the table is found only when no earlier row has its id. */
  lemma {:induction false} FindAfterAppend(rows: seq<Document>, row: Document, rid: RecordId)
    ensures FindById(rows + [row], rid) ==
      if FindById(rows, rid).Some? then FindById(rows, rid)
      else if HasId(row, rid) then Some(row)
      else None
  {
    if rows != [] {
      assert (rows + [row])[1..] == rows[1..] + [row];
      FindAfterAppend(rows[1..], row, rid);
    }
  }

  /** A row added at the end is selected after the rows already there. */
  lemma {:induction false} FilterAppend(rows: seq<Document>, row: Document, keep: Document -> bool)
    ensures Filter(rows + [row], keep) == Filter(rows, keep) + (if keep(row) then [row] else [])
  {
    if rows == [] {
      assert rows + [row] == [row];
    } else {
      assert (rows + [row])[1..] == rows[1..] + [row];
      FilterAppend(rows[1..], row, keep);
    }
  }

  /** A row with a new id of the table, added at the end, keeps the table keyed. */
  lemma KeyedAppend(rows: seq<Document>, table: string, row: Document)
    requires Keyed(rows, table)
    requires IdOf(row).Some? && IdOf(row).value.table == table
    requires FindById(rows, IdOf(row).value).None?
    ensures Keyed(rows + [row], table)
  {
    var r := rows + [row];
    forall i, j | 0 <= i < j < |r|
      ensures IdOf(r[i]) != IdOf(r[j])
    {
      if j == |rows| {
        assert r[i] in rows;
        assert !HasId(r[i], IdOf(row).value);
      }
    }
  }
}
