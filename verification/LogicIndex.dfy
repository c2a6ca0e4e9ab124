/**
 Incremental re-embedding: unchanged definitions are skipped by hash, the others are embedded in
 batches and stored, and rows of objects that are gone are removed. Any call may fail.
 */
module LogicIndex {
  import opened Wrappers
  import opened LogicTable

  const BATCH_SIZE := 16

  datatype Definition = Definition(name: string, kind: string, text: string)

  /** The digest, and the embedding a model gives a text. */
  datatype Env = Env(hash: string -> string, embed: (string, string) -> Vector)

  /**
   Which calls of a run fail: hash look-ups, whole batches (an error or a wrong number of vectors),
   encoding, deleting or inserting one object, listing names, deleting one stale object, and warming
   the vector index at the end.
   */
  datatype Faults = Faults(lookup: string -> bool, batch: nat -> bool, encode: string -> bool,
                           delete: string -> bool, insert: string -> bool, listing: bool, stale: string -> bool,
                           warming: bool)

  /** One run: which connection, under which model, on which definitions, whether it warms the index, what fails. */
  datatype Run = Run(env: Env, conn: string, model: string, defs: seq<Definition>, warms: bool, faults: Faults) {

    function Fresh(d: Definition): Row {
      Row(conn, d.name, d.kind, env.hash(d.text), model, env.embed(model, d.text))
    }

    predicate Unchanged(rows: seq<Row>, d: Definition) {
      !faults.lookup(d.name) && StoredHash(rows, conn, d.name, model) == Some(env.hash(d.text))
    }

    function Pending(rows: seq<Row>, ds: seq<Definition>): seq<Definition> {
      if ds == [] then []
      else Pending(rows, ds[..|ds| - 1]) + (if Unchanged(rows, ds[|ds| - 1]) then [] else [ds[|ds| - 1]])
    }

    /** The i-th pending definition: delete, then insert. */
    function Store(rows: seq<Row>, d: Definition, i: nat): seq<Row> {
      if faults.batch(i / BATCH_SIZE) || faults.encode(d.name) || faults.delete(d.name) then rows
      else if faults.insert(d.name) then Delete(rows, conn, d.name)
      else Delete(rows, conn, d.name) + [Fresh(d)]
    }

    function StoreFirst(rows: seq<Row>, ds: seq<Definition>, n: nat): seq<Row>
      requires n <= |ds|
    {
      if n == 0 then rows else Store(StoreFirst(rows, ds, n - 1), ds[n - 1], n - 1)
    }

    /** Every call for the i-th pending definition succeeds. */
    predicate Indexes(d: Definition, i: nat) {
      !faults.batch(i / BATCH_SIZE) && !faults.encode(d.name) && !faults.delete(d.name) && !faults.insert(d.name)
    }

    function IndexedCount(ds: seq<Definition>, n: nat): nat
      requires n <= |ds|
    {
      if n == 0 then 0 else IndexedCount(ds, n - 1) + if Indexes(ds[n - 1], n - 1) then 1 else 0
    }

    /** A failed batch is one error, whatever its size; otherwise each failing definition is one. */
    function ErrorCount(ds: seq<Definition>, n: nat): nat
      requires n <= |ds|
    {
      if n == 0 then 0
      else
        var i := n - 1;
        ErrorCount(ds, i) +
        if faults.batch(i / BATCH_SIZE) then (if i % BATCH_SIZE == 0 then 1 else 0)
        else if Indexes(ds[i], i) then 0 else 1
    }

    /** The error, if any, of warming the index. */
    function WarmErrors(): nat {
      if warms && faults.warming then 1 else 0
    }

    function RemovedCount(names: seq<string>): nat {
      if names == [] then 0
      else (if Defined(names[0]) || faults.stale(names[0]) then 0 else 1) + RemovedCount(names[1..])
    }

    predicate Defined(name: string) {
      exists i :: 0 <= i < |defs| && defs[i].name == name
    }

    function RemoveStale(rows: seq<Row>, names: seq<string>): seq<Row>
      decreases |names|
    {
      if names == [] then rows
      else
        RemoveStale(if Defined(names[0]) || faults.stale(names[0]) then rows else Delete(rows, conn, names[0]), names[1..])
    }

    function Stored(rows: seq<Row>): seq<Row> {
      StoreFirst(rows, Pending(rows, defs), |Pending(rows, defs)|)
    }

    /** The table after the run. */
    function Reindex(rows: seq<Row>): seq<Row> {
      if faults.listing then Stored(rows) else RemoveStale(Stored(rows), Names(Stored(rows), conn))
    }
  }

  lemma SameBatch(start: nat, i: nat)
    requires start % BATCH_SIZE == 0 && start <= i < start + BATCH_SIZE
    ensures i / BATCH_SIZE == start / BATCH_SIZE && (i % BATCH_SIZE == 0 <==> i == start)
  {
  }

  class Report {
    var indexed: nat
    var skipped: nat
    var removed: nat
    var errors: nat

    /** Of the first n pending definitions. */
    predicate Counts(run: Run, ds: seq<Definition>, n: nat)
      requires n <= |ds|
      reads this
    {
      indexed == run.IndexedCount(ds, n) && errors == run.ErrorCount(ds, n)
    }

    constructor ()
      ensures indexed == 0 && skipped == 0 && removed == 0 && errors == 0
    {
      indexed, skipped, removed, errors := 0, 0, 0, 0;
    }
  }

  class Table {
    var rows: seq<Row>

    /** Stores the i-th pending definition, unless a call fails. */
    method StoreOne(run: Run, ds: seq<Definition>, i: nat, report: Report)
      requires i < |ds| && !run.faults.batch(i / BATCH_SIZE) && report.Counts(run, ds, i)
      modifies this, report
      ensures rows == run.Store(old(rows), ds[i], i) && report.Counts(run, ds, i + 1)
      ensures report.skipped == old(report.skipped) && report.removed == old(report.removed)
    {
      var d := ds[i];
      if run.faults.encode(d.name) || run.faults.delete(d.name) {
        report.errors := report.errors + 1;
        return;
      }
      rows := Delete(rows, run.conn, d.name);
      if run.faults.insert(d.name) {
        report.errors := report.errors + 1;
        return;
      }
      rows := rows + [run.Fresh(d)];
      report.indexed := report.indexed + 1;
    }

    /** Stores the pending definitions from start to end, whose vectors have arrived. */
    method StoreBatch(run: Run, toEmbed: seq<Definition>, start: nat, end: nat, report: Report, ghost first: seq<Row>)
      requires start <= end <= |toEmbed| && end <= start + BATCH_SIZE && start % BATCH_SIZE == 0
      requires !run.faults.batch(start / BATCH_SIZE)
      requires rows == run.StoreFirst(first, toEmbed, start) && report.Counts(run, toEmbed, start)
      modifies this, report
      ensures rows == run.StoreFirst(first, toEmbed, end) && report.Counts(run, toEmbed, end)
      ensures report.skipped == old(report.skipped) && report.removed == old(report.removed)
    {
      for j := start to end
        invariant rows == run.StoreFirst(first, toEmbed, j) && report.Counts(run, toEmbed, j)
        invariant report.skipped == old(report.skipped) && report.removed == old(report.removed)
      {
        SameBatch(start, j);
        StoreOne(run, toEmbed, j, report);
      }
    }

    method StoreBatches(run: Run, toEmbed: seq<Definition>, report: Report)
      requires report.indexed == 0 && report.errors == 0
      modifies this, report
      ensures rows == run.StoreFirst(old(rows), toEmbed, |toEmbed|) && report.Counts(run, toEmbed, |toEmbed|)
      ensures report.skipped == old(report.skipped) && report.removed == old(report.removed)
    {
      var i := 0;
      while i < |toEmbed|
        invariant i % BATCH_SIZE == 0 || i == |toEmbed|
        invariant i <= |toEmbed| && rows == run.StoreFirst(old(rows), toEmbed, i)
        invariant report.Counts(run, toEmbed, i)
        invariant report.skipped == old(report.skipped) && report.removed == old(report.removed)
      {
        var end := if i + BATCH_SIZE > |toEmbed| then |toEmbed| else i + BATCH_SIZE;
        if run.faults.batch(i / BATCH_SIZE) {
          report.errors := report.errors + 1;
          SkippedBatch(run, old(rows), toEmbed, i, end);
        } else {
          StoreBatch(run, toEmbed, i, end, report, old(rows));
        }
        i := end;
      }
    }

    /** Sorts out what has to be embedded; the names seen are those defined. */
    method FindPending(run: Run, report: Report) returns (toEmbed: seq<Definition>, seen: set<string>)
      modifies report
      ensures toEmbed == run.Pending(rows, run.defs)
      ensures forall name :: name in seen <==> run.Defined(name)
      ensures report.skipped == old(report.skipped) + |run.defs| - |toEmbed|
      ensures report.indexed == old(report.indexed) && report.errors == old(report.errors)
           && report.removed == old(report.removed)
    {
      toEmbed, seen := [], {};
      for i := 0 to |run.defs|
        invariant toEmbed == run.Pending(rows, run.defs[..i])
        invariant report.skipped + |toEmbed| == old(report.skipped) + i
        invariant report.indexed == old(report.indexed) && report.errors == old(report.errors)
               && report.removed == old(report.removed)
        invariant forall name :: name in seen <==> exists j :: 0 <= j < i && run.defs[j].name == name
      {
        var d := run.defs[i];
        assert run.defs[..i + 1][..i] == run.defs[..i];
        seen := seen + {d.name};
        if !run.faults.lookup(d.name) && StoredHash(rows, run.conn, d.name, run.model) == Some(run.env.hash(d.text)) {
          report.skipped := report.skipped + 1;
        } else {
          toEmbed := toEmbed + [d];
        }
      }
      assert run.defs[..|run.defs|] == run.defs;
    }

    /** Deletes the rows of objects that are no longer defined. */
    method DeleteStale(run: Run, seen: set<string>, report: Report)
      requires forall name :: name in seen <==> run.Defined(name)
      modifies this, report
      ensures var names := Names(old(rows), run.conn);
        rows == run.RemoveStale(old(rows), names) && report.removed == old(report.removed) + run.RemovedCount(names)
      ensures report.indexed == old(report.indexed) && report.errors == old(report.errors)
           && report.skipped == old(report.skipped)
    {
      var names := Names(rows, run.conn);
      for i := 0 to |names|
        invariant run.RemoveStale(rows, names[i..]) == run.RemoveStale(old(rows), names)
        invariant report.removed + run.RemovedCount(names[i..]) == old(report.removed) + run.RemovedCount(names)
        invariant report.indexed == old(report.indexed) && report.errors == old(report.errors)
               && report.skipped == old(report.skipped)
      {
        assert names[i..][1..] == names[i + 1..];
        if names[i] !in seen && !run.faults.stale(names[i]) {
          rows := Delete(rows, run.conn, names[i]);
          report.removed := report.removed + 1;
        }
      }
    }

    method ApplyLogicIndex(run: Run) returns (report: Report)
      modifies this
      ensures rows == run.Reindex(old(rows)) && fresh(report)
      ensures var pending, stored := run.Pending(old(rows), run.defs), run.Stored(old(rows));
        && report.skipped == |run.defs| - |pending|
        && report.indexed == run.IndexedCount(pending, |pending|)
        && report.removed == (if run.faults.listing then 0 else run.RemovedCount(Names(stored, run.conn)))
        && report.errors == run.ErrorCount(pending, |pending|) + run.WarmErrors()
    {
      report := new Report();
      var toEmbed, seen := FindPending(run, report);
      StoreBatches(run, toEmbed, report);
      if !run.faults.listing {
        DeleteStale(run, seen, report);
      }
      if run.warms && run.faults.warming {
        report.errors := report.errors + 1;
      }
    }
  }

  /** A failed batch leaves every one of its definitions as it was, and is one error. */
  lemma {:induction false} SkippedBatch(run: Run, rows: seq<Row>, ds: seq<Definition>, start: nat, end: nat)
    requires start <= end <= |ds| && end <= start + BATCH_SIZE && start % BATCH_SIZE == 0
    requires run.faults.batch(start / BATCH_SIZE)
    ensures run.StoreFirst(rows, ds, end) == run.StoreFirst(rows, ds, start)
    ensures run.IndexedCount(ds, end) == run.IndexedCount(ds, start)
    ensures run.ErrorCount(ds, end) == run.ErrorCount(ds, start) + if end > start then 1 else 0
    decreases end - start
  {
    if start < end {
      SkippedBatch(run, rows, ds, start, end - 1);
      SameBatch(start, end - 1);
    }
  }

  /** No error is counted exactly when everything was indexed. */
  lemma {:induction false} NoErrorsIff(run: Run, ds: seq<Definition>, n: nat)
    requires n <= |ds|
    ensures run.IndexedCount(ds, n) <= n
    ensures run.ErrorCount(ds, n) == 0 <==> run.IndexedCount(ds, n) == n
  {
    if n > 0 {
      NoErrorsIff(run, ds, n - 1);
      if run.faults.batch((n - 1) / BATCH_SIZE) {
        BatchErrorStays(run, ds, n);
      }
    }
  }

  /** The error of a failed batch is counted with its first definition. */
  lemma {:induction false} BatchErrorStays(run: Run, ds: seq<Definition>, n: nat)
    requires 0 < n <= |ds| && run.faults.batch((n - 1) / BATCH_SIZE)
    ensures run.ErrorCount(ds, n) > 0
  {
    if (n - 1) % BATCH_SIZE != 0 {
      assert (n - 2) / BATCH_SIZE == (n - 1) / BATCH_SIZE;
      BatchErrorStays(run, ds, n - 1);
    }
  }
}
