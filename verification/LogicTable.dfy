/** The table of embedded object definitions and the statements that read and change it. */
module LogicTable {
  import opened Wrappers
  import opened Sorting

  type Vector = seq<real>

  datatype Row = Row(conn: string, name: string, kind: string, hash: string, model: string, vector: Vector)

  function Other(conn: string, name: string): Row -> bool {
    (r: Row) => !(r.conn == conn && r.name == name)
  }

  function NotOfConnection(conn: string): Row -> bool {
    (r: Row) => r.conn != conn
  }

  /** DELETE ... WHERE connection_id = ? AND object_name = ? */
  function Delete(rows: seq<Row>, conn: string, name: string): seq<Row> {
    Filter(rows, Other(conn, name))
  }

  /** The first row of an object, whatever its model. */
  function View(rows: seq<Row>, conn: string, name: string): Option<Row> {
    if rows == [] then None
    else if rows[0].conn == conn && rows[0].name == name then Some(rows[0])
    else View(rows[1..], conn, name)
  }

  /** SELECT definition_hash ... for one object and model: the first row decides. */
  function StoredHash(rows: seq<Row>, conn: string, name: string, model: string): Option<string> {
    if rows == [] then None
    else if rows[0].conn == conn && rows[0].name == name && rows[0].model == model then Some(rows[0].hash)
    else StoredHash(rows[1..], conn, name, model)
  }

  /** SELECT object_name ... WHERE connection_id = ? */
  function Names(rows: seq<Row>, conn: string): seq<string> {
    if rows == [] then []
    else (if rows[0].conn == conn then [rows[0].name] else []) + Names(rows[1..], conn)
  }

  /** At most one row per object of the connection. */
  ghost predicate OneRowEach(rows: seq<Row>, conn: string) {
    forall i, j | 0 <= i < j < |rows| && rows[i].conn == conn && rows[j].conn == conn :: rows[i].name != rows[j].name
  }

  lemma {:induction false} ViewIs(rows: seq<Row>, conn: string, name: string)
    ensures View(rows, conn, name).Some? ==>
      var r := View(rows, conn, name).value; r in rows && r.conn == conn && r.name == name
    ensures forall r | r in rows && r.conn == conn && r.name == name :: View(rows, conn, name).Some?
  {
    if rows != [] {
      ViewIs(rows[1..], conn, name);
    }
  }

  /** With one row per object, the rows of a connection are exactly its views. */
  lemma {:induction false} ViewFinds(rows: seq<Row>, r: Row)
    requires OneRowEach(rows, r.conn) && r in rows
    ensures View(rows, r.conn, r.name) == Some(r)
  {
    if rows[0] != r {
      ViewFinds(rows[1..], r);
      var i :| 0 <= i < |rows| && rows[i] == r;
      assert rows[0].conn == r.conn ==> rows[0].name != rows[i].name;
    }
  }

  lemma {:induction false} ViewOfDelete(rows: seq<Row>, conn: string, gone: string, name: string)
    ensures View(Delete(rows, conn, gone), conn, name) == if name == gone then None else View(rows, conn, name)
  {
    if rows != [] {
      ViewOfDelete(rows[1..], conn, gone, name);
      if Other(conn, gone)(rows[0]) {
        assert Delete(rows, conn, gone)[1..] == Delete(rows[1..], conn, gone);
      } else {
        assert Delete(rows, conn, gone) == Delete(rows[1..], conn, gone);
      }
    }
  }

  lemma {:induction false} ViewOfInsert(rows: seq<Row>, r: Row, conn: string, name: string)
    ensures View(rows + [r], conn, name)
         == if View(rows, conn, name).Some? then View(rows, conn, name)
            else if r.conn == conn && r.name == name then Some(r) else None
  {
    if rows == [] {
      assert [] + [r] == [r];
    } else {
      assert (rows + [r])[1..] == rows[1..] + [r];
      ViewOfInsert(rows[1..], r, conn, name);
    }
  }

  lemma {:induction false} HashOfView(rows: seq<Row>, conn: string, name: string, model: string)
    requires OneRowEach(rows, conn)
    ensures var v := View(rows, conn, name);
      StoredHash(rows, conn, name, model) == if v.Some? && v.value.model == model then Some(v.value.hash) else None
  {
    if rows != [] {
      HashOfView(rows[1..], conn, name, model);
      if rows[0].conn == conn && rows[0].name == name {
        HeadIsOnly(rows);
      }
    }
  }

  lemma HeadIsOnly(rows: seq<Row>)
    requires rows != [] && OneRowEach(rows, rows[0].conn)
    ensures View(rows[1..], rows[0].conn, rows[0].name).None?
  {
    ViewIs(rows[1..], rows[0].conn, rows[0].name);
    forall r | r in rows[1..]
      ensures !(r.conn == rows[0].conn && r.name == rows[0].name)
    {
      var i :| 0 <= i < |rows[1..]| && rows[1..][i] == r;
      assert rows[i + 1] == r;
    }
  }

  lemma {:induction false} NamesAre(rows: seq<Row>, conn: string, name: string)
    ensures name in Names(rows, conn) <==> View(rows, conn, name).Some?
  {
    if rows != [] {
      NamesAre(rows[1..], conn, name);
    }
  }

  lemma {:induction false} FilterKeepsOneRowEach(rows: seq<Row>, conn: string, keep: Row -> bool)
    requires OneRowEach(rows, conn)
    ensures OneRowEach(Filter(rows, keep), conn)
  {
    if rows != [] {
      FilterKeepsOneRowEach(rows[1..], conn, keep);
      var rest := Filter(rows[1..], keep);
      forall j | 0 <= j < |rest| && rest[j].conn == conn && rows[0].conn == conn
        ensures rest[j].name != rows[0].name
      {
        assert rest[j] in rows[1..];
        var i :| 0 <= i < |rows[1..]| && rows[1..][i] == rest[j];
        assert rows[i + 1] == rest[j];
      }
    }
  }

  lemma InsertKeepsOneRowEach(rows: seq<Row>, r: Row)
    requires OneRowEach(rows, r.conn) && View(rows, r.conn, r.name).None?
    ensures OneRowEach(rows + [r], r.conn)
  {
    ViewIs(rows, r.conn, r.name);
  }

  lemma {:induction false} FilterTwice(rows: seq<Row>, conn: string, name: string)
    ensures Filter(Delete(rows, conn, name), NotOfConnection(conn)) == Filter(rows, NotOfConnection(conn))
  {
    if rows != [] {
      FilterTwice(rows[1..], conn, name);
      if Other(conn, name)(rows[0]) {
        assert Delete(rows, conn, name)[1..] == Delete(rows[1..], conn, name);
      } else {
        assert Delete(rows, conn, name) == Delete(rows[1..], conn, name);
      }
    }
  }
}
