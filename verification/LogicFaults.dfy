/** What each failing call of a run leaves behind, object by object, and what the counts of its report count. */
module LogicFaults {
  import opened Wrappers
  import opened Sorting
  import opened LogicTable
  import opened LogicIndex
  import opened LogicReindex

  /** A definition is embedded unless its look-up succeeds and finds its hash under the run's model. */
  lemma PendingIff(run: Run, rows: seq<Row>, d: Definition)
    requires OneRowEach(rows, run.conn) && d in run.defs
    ensures d in run.Pending(rows, run.defs) <==>
      run.faults.lookup(d.name) ||
      !exists r :: r in rows && r.conn == run.conn && r.name == d.name && r.model == run.model && r.hash == run.env.hash(d.text)
  {
    PendingMembers(run, rows, run.defs);
    HashOfView(rows, run.conn, d.name, run.model);
    ViewIs(rows, run.conn, d.name);
    if r :| r in rows && r.conn == run.conn && r.name == d.name && r.model == run.model && r.hash == run.env.hash(d.text) {
      ViewFinds(rows, r);
    }
  }

  /** What is left of the k-th pending object: batches are of sixteen, and a failing insert comes after the delete. */
  function Left(run: Run, d: Definition, k: nat, before: Option<Row>): Option<Row> {
    if run.faults.batch(k / 16) || run.faults.encode(d.name) || run.faults.delete(d.name) then before
    else if run.faults.insert(d.name) then None
    else Some(Row(run.conn, d.name, d.kind, run.env.hash(d.text), run.model, run.env.embed(run.model, d.text)))
  }

  lemma StoredNow(run: Run, rows: seq<Row>, d: Definition, k: nat)
    ensures View(run.Store(rows, d, k), run.conn, d.name) == Left(run, d, k, View(rows, run.conn, d.name))
  {
    ViewOfDelete(rows, run.conn, d.name, d.name);
    ViewOfInsert(Delete(rows, run.conn, d.name), run.Fresh(d), run.conn, d.name);
  }

  lemma {:induction false} StoredBefore(run: Run, rows: seq<Row>, ds: seq<Definition>, n: nat, k: nat)
    requires k < n <= |ds| && Distinct(ds)
    ensures View(run.StoreFirst(rows, ds, n), run.conn, ds[k].name) == Left(run, ds[k], k, View(rows, run.conn, ds[k].name))
  {
    if k == n - 1 {
      ViewOfUnstored(run, rows, ds, k, ds[k].name);
      StoredNow(run, run.StoreFirst(rows, ds, k), ds[k], k);
    } else {
      StoredBefore(run, rows, ds, n - 1, k);
      ViewOfStore(run, run.StoreFirst(rows, ds, n - 1), ds[n - 1], n - 1, ds[k].name);
    }
  }

  lemma PendingIsDefined(run: Run, rows: seq<Row>, k: nat)
    requires k < |run.Pending(rows, run.defs)|
    ensures run.Defined(run.Pending(rows, run.defs)[k].name)
  {
    PendingMembers(run, rows, run.defs);
    var d := run.Pending(rows, run.defs)[k];
    assert d in run.defs;
    var i :| 0 <= i < |run.defs| && run.defs[i] == d;
  }

  /** Whatever fails, a pending object keeps its row, loses it or has a fresh one, as the calls for it went. */
  lemma PendingAfter(run: Run, rows: seq<Row>, k: nat)
    requires Distinct(run.defs) && k < |run.Pending(rows, run.defs)|
    ensures var d := run.Pending(rows, run.defs)[k];
      View(run.Reindex(rows), run.conn, d.name) == Left(run, d, k, View(rows, run.conn, d.name))
  {
    var p := run.Pending(rows, run.defs);
    PendingDistinct(run, rows, run.defs);
    StoredBefore(run, rows, p, |p|, k);
    PendingIsDefined(run, rows, k);
    ViewOfRemoved(run, run.Stored(rows), Names(run.Stored(rows), run.conn), p[k].name);
  }

  /** An object that is no longer defined keeps its row only if the names cannot be listed or its delete fails. */
  lemma GoneAfter(run: Run, rows: seq<Row>, name: string)
    requires !run.Defined(name)
    ensures View(run.Reindex(rows), run.conn, name)
         == if run.faults.listing || run.faults.stale(name) then View(rows, run.conn, name) else None
  {
    var p := run.Pending(rows, run.defs);
    forall i | 0 <= i < |p|
      ensures p[i].name != name
    {
      PendingIsDefined(run, rows, i);
    }
    ViewOfUnstored(run, rows, p, |p|, name);
    NamesAre(run.Stored(rows), run.conn, name);
    ViewOfRemoved(run, run.Stored(rows), Names(run.Stored(rows), run.conn), name);
  }

  // ---- What the counts count ----

  /** How many of the first n definitions have a fresh row. */
  function FreshCount(run: Run, rows: seq<Row>, ds: seq<Definition>, n: nat): nat
    requires n <= |ds|
  {
    if n == 0 then 0
    else
      var d := ds[n - 1];
      FreshCount(run, rows, ds, n - 1) + if View(rows, run.conn, d.name) == Some(run.Fresh(d)) then 1 else 0
  }

  lemma IndexesIff(run: Run, d: Definition, k: nat, before: Option<Row>)
    requires before != Some(run.Fresh(d))
    ensures run.Indexes(d, k) <==> Left(run, d, k, before) == Some(run.Fresh(d))
  {
  }

  lemma {:induction false} IndexedUpTo(run: Run, rows: seq<Row>, n: nat)
    requires Distinct(run.defs) && n <= |run.Pending(rows, run.defs)|
    requires forall d | d in run.Pending(rows, run.defs) :: View(rows, run.conn, d.name) != Some(run.Fresh(d))
    ensures var p := run.Pending(rows, run.defs); run.IndexedCount(p, n) == FreshCount(run, run.Reindex(rows), p, n)
  {
    var p := run.Pending(rows, run.defs);
    if n > 0 {
      IndexedUpTo(run, rows, n - 1);
      PendingAfter(run, rows, n - 1);
      assert p[n - 1] in p;
      IndexesIff(run, p[n - 1], n - 1, View(rows, run.conn, p[n - 1].name));
    }
  }

  /** If every look-up succeeds, the report counts as indexed exactly the pending objects that have a fresh row afterwards. */
  lemma IndexedAreFresh(run: Run, rows: seq<Row>)
    requires Distinct(run.defs) && OneRowEach(rows, run.conn) && forall name :: !run.faults.lookup(name)
    ensures var p := run.Pending(rows, run.defs); run.IndexedCount(p, |p|) == FreshCount(run, run.Reindex(rows), p, |p|)
  {
    var p := run.Pending(rows, run.defs);
    forall d | d in p
      ensures View(rows, run.conn, d.name) != Some(run.Fresh(d))
    {
      PendingMembers(run, rows, run.defs);
      PendingIff(run, rows, d);
      ViewIs(rows, run.conn, d.name);
    }
    IndexedUpTo(run, rows, |p|);
  }

  lemma {:induction false} NothingDeleted(rows: seq<Row>, conn: string, name: string)
    requires View(rows, conn, name).None?
    ensures |Delete(rows, conn, name)| == |rows|
  {
    if rows != [] {
      NothingDeleted(rows[1..], conn, name);
    }
  }

  lemma {:induction false} OneDeleted(rows: seq<Row>, conn: string, name: string)
    requires OneRowEach(rows, conn) && View(rows, conn, name).Some?
    ensures |Delete(rows, conn, name)| + 1 == |rows|
  {
    if rows[0].conn == conn && rows[0].name == name {
      HeadIsOnly(rows);
      NothingDeleted(rows[1..], conn, name);
    } else {
      OneDeleted(rows[1..], conn, name);
    }
  }

  /** Names that are there, each once. */
  ghost predicate Present(rows: seq<Row>, conn: string, names: seq<string>) {
    && (forall i | 0 <= i < |names| :: View(rows, conn, names[i]).Some?)
    && (forall i, j | 0 <= i < j < |names| :: names[i] != names[j])
  }

  lemma PresentAfterDelete(rows: seq<Row>, conn: string, names: seq<string>)
    requires names != [] && Present(rows, conn, names)
    ensures Present(Delete(rows, conn, names[0]), conn, names[1..]) && Present(rows, conn, names[1..])
  {
    forall i | 0 <= i < |names[1..]|
      ensures View(Delete(rows, conn, names[0]), conn, names[1..][i]).Some? && View(rows, conn, names[1..][i]).Some?
    {
      ViewOfDelete(rows, conn, names[0], names[i + 1]);
    }
  }

  lemma {:induction false} RemovedConserves(run: Run, rows: seq<Row>, names: seq<string>)
    requires OneRowEach(rows, run.conn) && Present(rows, run.conn, names)
    ensures |run.RemoveStale(rows, names)| + run.RemovedCount(names) == |rows|
    decreases |names|
  {
    if names != [] {
      PresentAfterDelete(rows, run.conn, names);
      if run.Defined(names[0]) || run.faults.stale(names[0]) {
        RemovedConserves(run, rows, names[1..]);
      } else {
        FilterKeepsOneRowEach(rows, run.conn, Other(run.conn, names[0]));
        OneDeleted(rows, run.conn, names[0]);
        RemovedConserves(run, Delete(rows, run.conn, names[0]), names[1..]);
      }
    }
  }

  lemma {:induction false} NamesDiffer(rows: seq<Row>, conn: string)
    requires OneRowEach(rows, conn)
    ensures forall i, j | 0 <= i < j < |Names(rows, conn)| :: Names(rows, conn)[i] != Names(rows, conn)[j]
  {
    if rows != [] {
      NamesDiffer(rows[1..], conn);
      if rows[0].conn == conn {
        HeadIsOnly(rows);
        NamesAre(rows[1..], conn, rows[0].name);
      }
    }
  }

  lemma NamesArePresent(rows: seq<Row>, conn: string)
    requires OneRowEach(rows, conn)
    ensures Present(rows, conn, Names(rows, conn))
  {
    NamesDiffer(rows, conn);
    var names := Names(rows, conn);
    forall i | 0 <= i < |names|
      ensures View(rows, conn, names[i]).Some?
    {
      NamesAre(rows, conn, names[i]);
    }
  }

  /** The report counts as removed exactly the rows that are no longer there. */
  lemma RemovedAreGone(run: Run, rows: seq<Row>)
    requires OneRowEach(rows, run.conn) && !run.faults.listing
    ensures |run.Reindex(rows)| + run.RemovedCount(Names(run.Stored(rows), run.conn)) == |run.Stored(rows)|
  {
    var p := run.Pending(rows, run.defs);
    StoreFirstKeepsOneRowEach(run, rows, p, |p|, run.conn);
    NamesArePresent(run.Stored(rows), run.conn);
    RemovedConserves(run, run.Stored(rows), Names(run.Stored(rows), run.conn));
  }
}
