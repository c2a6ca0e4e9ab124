/** What re-indexing guarantees: isolation, idempotence, and when it equals rebuilding from scratch. */
module LogicReindex {
  import opened Wrappers
  import opened LogicTable
  import opened LogicIndex
  import opened Sorting

  ghost predicate NoFaults(f: Faults) {
    && !f.listing
    && (forall i :: !f.batch(i))
    && (forall n :: !f.lookup(n) && !f.encode(n) && !f.delete(n) && !f.insert(n) && !f.stale(n))
  }

  // ---- Other connections ----

  /** The rows of other connections are the same, in the same order. */
  ghost predicate SameElsewhere(a: seq<Row>, b: seq<Row>, conn: string) {
    Filter(a, NotOfConnection(conn)) == Filter(b, NotOfConnection(conn))
  }

  lemma StoreLeavesOthers(run: Run, rows: seq<Row>, d: Definition, i: nat)
    ensures SameElsewhere(run.Store(rows, d, i), rows, run.conn)
  {
    FilterTwice(rows, run.conn, d.name);
    FilterAppend(Delete(rows, run.conn, d.name), [run.Fresh(d)], NotOfConnection(run.conn));
    assert Filter([run.Fresh(d)], NotOfConnection(run.conn)) == [];
  }

  lemma SameElsewhereStill(a: seq<Row>, b: seq<Row>, c: seq<Row>, conn: string)
    requires SameElsewhere(a, b, conn) && SameElsewhere(b, c, conn)
    ensures SameElsewhere(a, c, conn)
  {
  }

  lemma {:induction false} StoreFirstLeavesOthers(run: Run, rows: seq<Row>, ds: seq<Definition>, n: nat)
    requires n <= |ds|
    ensures SameElsewhere(run.StoreFirst(rows, ds, n), rows, run.conn)
  {
    if n > 0 {
      var before := run.StoreFirst(rows, ds, n - 1);
      StoreFirstLeavesOthers(run, rows, ds, n - 1);
      StoreLeavesOthers(run, before, ds[n - 1], n - 1);
      SameElsewhereStill(run.Store(before, ds[n - 1], n - 1), before, rows, run.conn);
    }
  }

  lemma DeleteLeavesOthers(rows: seq<Row>, conn: string, name: string)
    ensures SameElsewhere(Delete(rows, conn, name), rows, conn)
  {
    FilterTwice(rows, conn, name);
  }

  lemma {:induction false} RemoveLeavesOthers(run: Run, rows: seq<Row>, names: seq<string>)
    ensures SameElsewhere(run.RemoveStale(rows, names), rows, run.conn)
    decreases |names|
  {
    if names != [] {
      var next := if run.Defined(names[0]) || run.faults.stale(names[0]) then rows else Delete(rows, run.conn, names[0]);
      DeleteLeavesOthers(rows, run.conn, names[0]);
      RemoveLeavesOthers(run, next, names[1..]);
      SameElsewhereStill(run.RemoveStale(next, names[1..]), next, rows, run.conn);
    }
  }

  /** Whatever fails, the rows of other connections stay as they are, in order. */
  lemma ReindexLeavesOthers(run: Run, rows: seq<Row>)
    ensures SameElsewhere(run.Reindex(rows), rows, run.conn)
  {
    var p := run.Pending(rows, run.defs);
    StoreFirstLeavesOthers(run, rows, p, |p|);
    RemoveLeavesOthers(run, run.Stored(rows), Names(run.Stored(rows), run.conn));
    SameElsewhereStill(run.Reindex(rows), run.Stored(rows), rows, run.conn);
  }

  // ---- One row per object ----

  lemma StoreKeepsOneRowEach(run: Run, rows: seq<Row>, d: Definition, i: nat, conn: string)
    requires OneRowEach(rows, conn)
    ensures OneRowEach(run.Store(rows, d, i), conn)
  {
    FilterKeepsOneRowEach(rows, conn, Other(run.conn, d.name));
    if run.conn == conn {
      ViewOfDelete(rows, conn, d.name, d.name);
      InsertKeepsOneRowEach(Delete(rows, conn, d.name), run.Fresh(d));
    }
  }

  lemma {:induction false} StoreFirstKeepsOneRowEach(run: Run, rows: seq<Row>, ds: seq<Definition>, n: nat, conn: string)
    requires n <= |ds| && OneRowEach(rows, conn)
    ensures OneRowEach(run.StoreFirst(rows, ds, n), conn)
  {
    if n > 0 {
      StoreFirstKeepsOneRowEach(run, rows, ds, n - 1, conn);
      StoreKeepsOneRowEach(run, run.StoreFirst(rows, ds, n - 1), ds[n - 1], n - 1, conn);
    }
  }

  lemma {:induction false} RemoveKeepsOneRowEach(run: Run, rows: seq<Row>, names: seq<string>, conn: string)
    requires OneRowEach(rows, conn)
    ensures OneRowEach(run.RemoveStale(rows, names), conn)
    decreases |names|
  {
    if names != [] {
      FilterKeepsOneRowEach(rows, conn, Other(run.conn, names[0]));
      RemoveKeepsOneRowEach(run, if run.Defined(names[0]) || run.faults.stale(names[0]) then rows
                                 else Delete(rows, run.conn, names[0]), names[1..], conn);
    }
  }

  /** Whatever fails, no object ends up with two rows, on the run's connection or any other. */
  lemma ReindexKeepsOneRowEach(run: Run, rows: seq<Row>, conn: string)
    requires OneRowEach(rows, conn)
    ensures OneRowEach(run.Reindex(rows), conn)
  {
    StoreFirstKeepsOneRowEach(run, rows, run.Pending(rows, run.defs), |run.Pending(rows, run.defs)|, conn);
    RemoveKeepsOneRowEach(run, run.Stored(rows), Names(run.Stored(rows), run.conn), conn);
  }

  // ---- What a run leaves for each object ----

  lemma ViewOfStore(run: Run, rows: seq<Row>, d: Definition, i: nat, name: string)
    ensures var after := View(run.Store(rows, d, i), run.conn, name);
      && (name != d.name ==> after == View(rows, run.conn, name))
      && (name == d.name ==> after in {View(rows, run.conn, name), None, Some(run.Fresh(d))})
      && (name == d.name && NoFaults(run.faults) ==> after == Some(run.Fresh(d)))
  {
    ViewOfDelete(rows, run.conn, d.name, name);
    ViewOfInsert(Delete(rows, run.conn, d.name), run.Fresh(d), run.conn, name);
  }

  lemma {:induction false} ViewOfStoreFirst(run: Run, rows: seq<Row>, ds: seq<Definition>, n: nat, k: nat)
    requires k < |ds| && n <= |ds| && forall i | 0 <= i < n && i != k :: ds[i].name != ds[k].name
    ensures var before, after := View(rows, run.conn, ds[k].name), View(run.StoreFirst(rows, ds, n), run.conn, ds[k].name);
      && (n <= k ==> after == before)
      && after in {before, None, Some(run.Fresh(ds[k]))}
      && (n > k && NoFaults(run.faults) ==> after == Some(run.Fresh(ds[k])))
  {
    if n > 0 {
      ViewOfStoreFirst(run, rows, ds, n - 1, k);
      ViewOfStore(run, run.StoreFirst(rows, ds, n - 1), ds[n - 1], n - 1, ds[k].name);
    }
  }

  lemma {:induction false} ViewOfUnstored(run: Run, rows: seq<Row>, ds: seq<Definition>, n: nat, name: string)
    requires n <= |ds| && forall i | 0 <= i < n :: ds[i].name != name
    ensures View(run.StoreFirst(rows, ds, n), run.conn, name) == View(rows, run.conn, name)
  {
    if n > 0 {
      ViewOfUnstored(run, rows, ds, n - 1, name);
      ViewOfStore(run, run.StoreFirst(rows, ds, n - 1), ds[n - 1], n - 1, name);
    }
  }

  ghost predicate Distinct(ds: seq<Definition>) {
    forall i, j | 0 <= i < j < |ds| :: ds[i].name != ds[j].name
  }

  /** What is pending is what a look-up does not find unchanged. */
  lemma {:induction false} PendingMembers(run: Run, rows: seq<Row>, ds: seq<Definition>)
    ensures forall d :: d in run.Pending(rows, ds) <==> d in ds && !run.Unchanged(rows, d)
  {
    if ds != [] {
      var rest, last := ds[..|ds| - 1], ds[|ds| - 1];
      PendingMembers(run, rows, rest);
      assert ds == rest + [last];
    }
  }

  lemma {:induction false} PendingDistinct(run: Run, rows: seq<Row>, ds: seq<Definition>)
    requires Distinct(ds)
    ensures Distinct(run.Pending(rows, ds))
  {
    if ds != [] {
      var rest, last := ds[..|ds| - 1], ds[|ds| - 1];
      PendingDistinct(run, rows, rest);
      PendingMembers(run, rows, rest);
      var p := run.Pending(rows, rest);
      forall i | 0 <= i < |p|
        ensures p[i].name != last.name
      {
        assert p[i] in rest;
        var j :| 0 <= j < |rest| && rest[j] == p[i];
        assert ds[j].name != ds[|ds| - 1].name;
      }
    }
  }

  lemma SameName(ds: seq<Definition>, a: Definition, b: Definition)
    requires Distinct(ds) && a in ds && b in ds && a.name == b.name
    ensures a == b
  {
    var i :| 0 <= i < |ds| && ds[i] == a;
    var j :| 0 <= j < |ds| && ds[j] == b;
  }

  lemma ViewOfStored(run: Run, rows: seq<Row>, d: Definition)
    requires Distinct(run.defs) && d in run.defs
    ensures var before, after := View(rows, run.conn, d.name), View(run.Stored(rows), run.conn, d.name);
      && (run.Unchanged(rows, d) ==> after == before)
      && after in {before, None, Some(run.Fresh(d))}
      && (!run.Unchanged(rows, d) && NoFaults(run.faults) ==> after == Some(run.Fresh(d)))
  {
    var p := run.Pending(rows, run.defs);
    PendingMembers(run, rows, run.defs);
    PendingDistinct(run, rows, run.defs);
    if run.Unchanged(rows, d) {
      forall i | 0 <= i < |p|
        ensures p[i].name != d.name
      {
        assert p[i] in p;
        if p[i].name == d.name {
          SameName(run.defs, p[i], d);
        }
      }
      ViewOfUnstored(run, rows, p, |p|, d.name);
    } else {
      var k :| 0 <= k < |p| && p[k] == d;
      ViewOfStoreFirst(run, rows, p, |p|, k);
    }
  }

  lemma {:induction false} ViewOfRemoved(run: Run, rows: seq<Row>, names: seq<string>, name: string)
    ensures View(run.RemoveStale(rows, names), run.conn, name)
         == if run.Defined(name) || run.faults.stale(name) || name !in names then View(rows, run.conn, name) else None
    decreases |names|
  {
    if names != [] {
      ViewOfDelete(rows, run.conn, names[0], name);
      var next := if run.Defined(names[0]) || run.faults.stale(names[0]) then rows else Delete(rows, run.conn, names[0]);
      ViewOfRemoved(run, next, names[1..], name);
      assert name in names <==> name == names[0] || name in names[1..];
    }
  }

  /** An object still defined keeps its row if its hash matches, and has a fresh one if nothing fails. */
  lemma ViewOfReindexed(run: Run, rows: seq<Row>, d: Definition)
    requires Distinct(run.defs) && d in run.defs
    ensures var before, after := View(rows, run.conn, d.name), View(run.Reindex(rows), run.conn, d.name);
      && (run.Unchanged(rows, d) ==> after == before)
      && after in {before, None, Some(run.Fresh(d))}
      && (!run.Unchanged(rows, d) && NoFaults(run.faults) ==> after == Some(run.Fresh(d)))
  {
    var i :| 0 <= i < |run.defs| && run.defs[i] == d;
    assert run.Defined(d.name);
    ViewOfStored(run, rows, d);
    ViewOfRemoved(run, run.Stored(rows), Names(run.Stored(rows), run.conn), d.name);
  }

  /** An object no longer defined loses its row if nothing fails. */
  lemma ViewOfGone(run: Run, rows: seq<Row>, name: string)
    requires NoFaults(run.faults) && !run.Defined(name)
    ensures View(run.Reindex(rows), run.conn, name).None?
  {
    NamesAre(run.Stored(rows), run.conn, name);
    ViewOfRemoved(run, run.Stored(rows), Names(run.Stored(rows), run.conn), name);
  }

  // ---- Rebuilding ----

  /** The run on a table from which the connection's rows were deleted first. */
  function Rebuild(run: Run, rows: seq<Row>): seq<Row> {
    run.Reindex(Filter(rows, NotOfConnection(run.conn)))
  }

  lemma RebuildIsFresh(run: Run, rows: seq<Row>, d: Definition)
    requires NoFaults(run.faults) && Distinct(run.defs) && d in run.defs
    ensures View(Rebuild(run, rows), run.conn, d.name) == Some(run.Fresh(d))
  {
    var cleared := Filter(rows, NotOfConnection(run.conn));
    ViewIs(cleared, run.conn, d.name);
    HashOfView(cleared, run.conn, d.name, run.model);
    ViewOfReindexed(run, cleared, d);
  }

  /** The connection's rows are the same, object by object. */
  ghost predicate SameRows(a: seq<Row>, b: seq<Row>, conn: string) {
    forall name :: View(a, conn, name) == View(b, conn, name)
  }

  /** The digest tells texts apart. */
  ghost predicate Injective(env: Env) {
    forall s, t :: env.hash(s) == env.hash(t) ==> s == t
  }

  /** Every stored vector is the one its model gives the text with the stored hash. */
  ghost predicate Faithful(env: Env, rows: seq<Row>) {
    forall r, text | r in rows && env.hash(text) == r.hash :: r.vector == env.embed(r.model, text)
  }

  /** No skipped object has changed its kind. */
  predicate KindsAgree(run: Run, rows: seq<Row>) {
    forall i | 0 <= i < |run.defs| :: KindAgrees(run, rows, run.defs[i])
  }

  predicate KindAgrees(run: Run, rows: seq<Row>, d: Definition) {
    var v := View(rows, run.conn, d.name);
    v.Some? && v.value.model == run.model && v.value.hash == run.env.hash(d.text) ==> v.value.kind == d.kind
  }

  /** A run without failures leaves an object's fresh row exactly when its kind agrees. */
  lemma FreshIff(run: Run, rows: seq<Row>, d: Definition)
    requires NoFaults(run.faults) && Distinct(run.defs) && d in run.defs
    requires OneRowEach(rows, run.conn) && Faithful(run.env, rows)
    ensures View(run.Reindex(rows), run.conn, d.name) == Some(run.Fresh(d)) <==> KindAgrees(run, rows, d)
  {
    HashOfView(rows, run.conn, d.name, run.model);
    ViewIs(rows, run.conn, d.name);
    ViewOfReindexed(run, rows, d);
  }

  /**
   Re-indexing gives the rows of a rebuild exactly when no skipped object has changed its kind: the
   hash covers the definition's text but not its kind.
   */
  lemma ReindexEqualsRebuildIff(run: Run, rows: seq<Row>)
    requires NoFaults(run.faults) && Distinct(run.defs)
    requires OneRowEach(rows, run.conn) && Faithful(run.env, rows)
    ensures SameRows(run.Reindex(rows), Rebuild(run, rows), run.conn) <==> KindsAgree(run, rows)
  {
    forall i | 0 <= i < |run.defs|
      ensures View(Rebuild(run, rows), run.conn, run.defs[i].name) == Some(run.Fresh(run.defs[i]))
      ensures View(run.Reindex(rows), run.conn, run.defs[i].name) == Some(run.Fresh(run.defs[i]))
        <==> KindAgrees(run, rows, run.defs[i])
    {
      RebuildIsFresh(run, rows, run.defs[i]);
      FreshIff(run, rows, run.defs[i]);
    }
    forall name | !run.Defined(name)
      ensures View(run.Reindex(rows), run.conn, name) == View(Rebuild(run, rows), run.conn, name)
    {
      ViewOfGone(run, rows, name);
      ViewOfGone(run, Filter(rows, NotOfConnection(run.conn)), name);
    }
  }

  /** Equal views mean equal sets of rows. */
  lemma SameRowsMeans(a: seq<Row>, b: seq<Row>, conn: string, r: Row)
    requires SameRows(a, b, conn) && OneRowEach(a, conn) && OneRowEach(b, conn) && r.conn == conn
    ensures r in a <==> r in b
  {
    if r in a {
      ViewFinds(a, r);
      ViewIs(b, conn, r.name);
    }
    if r in b {
      ViewFinds(b, r);
      ViewIs(a, conn, r.name);
    }
  }

  /**
   An object whose kind alone has changed keeps its old kind. A PostgreSQL function and a procedure of one
   name are fetched with one text, and the row has the kind of the one stored last; when that one is
   dropped, the other may still be fetched with the same text.
   */
  lemma KindChangeIsMissed(run: Run, d: Definition, kind: string)
    requires NoFaults(run.faults) && run.defs == [d] && kind != d.kind
    ensures var stored := run.Fresh(d.(kind := kind));
      View(run.Reindex([stored]), run.conn, d.name) == Some(stored)
  {
    ViewOfReindexed(run, [run.Fresh(d.(kind := kind))], d);
  }

  // ---- Idempotence ----

  lemma {:induction false} NothingPending(run: Run, rows: seq<Row>, ds: seq<Definition>)
    requires forall i | 0 <= i < |ds| :: run.Unchanged(rows, ds[i])
    ensures run.Pending(rows, ds) == []
  {
    if ds != [] {
      NothingPending(run, rows, ds[..|ds| - 1]);
    }
  }

  lemma {:induction false} NothingStale(run: Run, rows: seq<Row>, names: seq<string>)
    requires forall i | 0 <= i < |names| :: run.Defined(names[i])
    ensures run.RemoveStale(rows, names) == rows
    decreases |names|
  {
    if names != [] {
      assert run.Defined(names[0]);
      NothingStale(run, rows, names[1..]);
    }
  }

  /** Definitions that share a name have the same hash. */
  predicate HashesAgree(run: Run) {
    forall i, j | 0 <= i < |run.defs| && 0 <= j < |run.defs| && run.defs[i].name == run.defs[j].name ::
      run.env.hash(run.defs[i].text) == run.env.hash(run.defs[j].text)
  }

  /** The row holds one of the current definitions of a name, under the current model. */
  ghost predicate HoldsOneOf(run: Run, v: Option<Row>, ds: seq<Definition>, name: string) {
    && v.Some? && v.value.model == run.model
    && exists i :: 0 <= i < |ds| && ds[i].name == name && v.value.hash == run.env.hash(ds[i].text)
  }

  /** Storing definitions of a name leaves one of them. */
  lemma {:induction false} StoredIsOneOf(run: Run, rows: seq<Row>, ds: seq<Definition>, n: nat, name: string)
    requires NoFaults(run.faults) && n <= |ds|
    requires exists i :: 0 <= i < n && ds[i].name == name
    ensures HoldsOneOf(run, View(run.StoreFirst(rows, ds, n), run.conn, name), ds, name)
  {
    ViewOfStore(run, run.StoreFirst(rows, ds, n - 1), ds[n - 1], n - 1, name);
    if ds[n - 1].name != name {
      StoredIsOneOf(run, rows, ds, n - 1, name);
    }
  }

  /** A name with a pending definition ends up with one that was pending. */
  lemma PendingIsStored(run: Run, rows: seq<Row>, d: Definition)
    requires NoFaults(run.faults) && d in run.defs && !run.Unchanged(rows, d)
    ensures HoldsOneOf(run, View(run.Reindex(rows), run.conn, d.name), run.Pending(rows, run.defs), d.name)
  {
    var p := run.Pending(rows, run.defs);
    PendingMembers(run, rows, run.defs);
    var k :| 0 <= k < |p| && p[k] == d;
    StoredIsOneOf(run, rows, p, |p|, d.name);
    var i :| 0 <= i < |run.defs| && run.defs[i] == d;
    assert run.Defined(d.name);
    ViewOfRemoved(run, run.Stored(rows), Names(run.Stored(rows), run.conn), d.name);
  }

  /** A name without one keeps its row. */
  lemma NotPendingIsKept(run: Run, rows: seq<Row>, d: Definition)
    requires d in run.defs && forall e | e in run.defs && e.name == d.name :: run.Unchanged(rows, e)
    ensures View(run.Reindex(rows), run.conn, d.name) == View(rows, run.conn, d.name)
  {
    var p := run.Pending(rows, run.defs);
    PendingMembers(run, rows, run.defs);
    forall i | 0 <= i < |p|
      ensures p[i].name != d.name
    {
      assert p[i] in p;
    }
    ViewOfUnstored(run, rows, p, |p|, d.name);
    var i :| 0 <= i < |run.defs| && run.defs[i] == d;
    assert run.Defined(d.name);
    ViewOfRemoved(run, run.Stored(rows), Names(run.Stored(rows), run.conn), d.name);
  }

  /** A defined name ends up with one of its current definitions. */
  lemma DefinedIsStored(run: Run, rows: seq<Row>, d: Definition)
    requires NoFaults(run.faults) && OneRowEach(rows, run.conn) && d in run.defs
    ensures HoldsOneOf(run, View(run.Reindex(rows), run.conn, d.name), run.defs, d.name)
  {
    if e :| e in run.defs && e.name == d.name && !run.Unchanged(rows, e) {
      PendingIsStored(run, rows, e);
      PendingMembers(run, rows, run.defs);
      var p, v := run.Pending(rows, run.defs), View(run.Reindex(rows), run.conn, d.name);
      var i :| 0 <= i < |p| && p[i].name == d.name && v.value.hash == run.env.hash(p[i].text);
      assert p[i] in run.defs;
      var j :| 0 <= j < |run.defs| && run.defs[j] == p[i];
    } else {
      NotPendingIsKept(run, rows, d);
      HashOfView(rows, run.conn, d.name, run.model);
      assert run.Unchanged(rows, d);
      var j :| 0 <= j < |run.defs| && run.defs[j] == d;
    }
  }

  lemma NothingIsStale(run: Run, rows: seq<Row>)
    requires NoFaults(run.faults)
    ensures run.RemoveStale(run.Reindex(rows), Names(run.Reindex(rows), run.conn)) == run.Reindex(rows)
  {
    var after := run.Reindex(rows);
    var names := Names(after, run.conn);
    forall i | 0 <= i < |names|
      ensures run.Defined(names[i])
    {
      NamesAre(after, run.conn, names[i]);
      if !run.Defined(names[i]) {
        ViewOfGone(run, rows, names[i]);
      }
    }
    NothingStale(run, after, names);
  }

  /** After a run, what is pending for the next one is what differs from the definition stored. */
  lemma UnchangedAfter(run: Run, rows: seq<Row>, d: Definition)
    requires NoFaults(run.faults) && OneRowEach(rows, run.conn) && d in run.defs
    ensures var v := View(run.Reindex(rows), run.conn, d.name);
      v.Some? && (run.Unchanged(run.Reindex(rows), d) <==> v.value.hash == run.env.hash(d.text))
  {
    DefinedIsStored(run, rows, d);
    ReindexKeepsOneRowEach(run, rows, run.conn);
    HashOfView(run.Reindex(rows), run.conn, d.name, run.model);
  }

  lemma AgreeingSettles(run: Run, rows: seq<Row>)
    requires NoFaults(run.faults) && OneRowEach(rows, run.conn) && HashesAgree(run)
    ensures run.Reindex(run.Reindex(rows)) == run.Reindex(rows)
  {
    forall i | 0 <= i < |run.defs|
      ensures run.Unchanged(run.Reindex(rows), run.defs[i])
    {
      DefinedIsStored(run, rows, run.defs[i]);
      UnchangedAfter(run, rows, run.defs[i]);
    }
    NothingPending(run, run.Reindex(rows), run.defs);
    NothingIsStale(run, rows);
  }

  lemma DisagreeingMoves(run: Run, rows: seq<Row>, a: Definition, b: Definition)
    requires NoFaults(run.faults) && OneRowEach(rows, run.conn)
    requires a in run.defs && b in run.defs && a.name == b.name && run.env.hash(a.text) != run.env.hash(b.text)
    ensures View(run.Reindex(run.Reindex(rows)), run.conn, a.name) != View(run.Reindex(rows), run.conn, a.name)
  {
    var once := run.Reindex(rows);
    UnchangedAfter(run, rows, a);
    UnchangedAfter(run, rows, b);
    var d := if run.Unchanged(once, a) then b else a;
    PendingIsStored(run, once, d);
    PendingMembers(run, once, run.defs);
    var p, v := run.Pending(once, run.defs), View(run.Reindex(once), run.conn, d.name);
    var i :| 0 <= i < |p| && p[i].name == d.name && v.value.hash == run.env.hash(p[i].text);
    assert p[i] in p;
    UnchangedAfter(run, rows, p[i]);
  }

  /** Repeating a successful run changes nothing exactly when definitions that share a name share their hash. */
  lemma ReindexIdempotentIff(run: Run, rows: seq<Row>)
    requires NoFaults(run.faults) && OneRowEach(rows, run.conn)
    ensures run.Reindex(run.Reindex(rows)) == run.Reindex(rows) <==> HashesAgree(run)
  {
    if HashesAgree(run) {
      AgreeingSettles(run, rows);
    } else {
      var i, j :| 0 <= i < |run.defs| && 0 <= j < |run.defs| && run.defs[i].name == run.defs[j].name
               && run.env.hash(run.defs[i].text) != run.env.hash(run.defs[j].text);
      DisagreeingMoves(run, rows, run.defs[i], run.defs[j]);
    }
  }

  /** With distinct names, repeating a successful run changes nothing at all. */
  lemma ReindexIdempotent(run: Run, rows: seq<Row>)
    requires NoFaults(run.faults) && Distinct(run.defs) && OneRowEach(rows, run.conn)
    ensures run.Reindex(run.Reindex(rows)) == run.Reindex(rows)
  {
    assert HashesAgree(run) by {
      forall i, j | 0 <= i < |run.defs| && 0 <= j < |run.defs| && run.defs[i].name == run.defs[j].name
        ensures i == j
      {
      }
    }
    AgreeingSettles(run, rows);
  }

  // ---- Recovery from failures ----

  /** The table after any runs: of other definitions, models and connections, failing in any way. */
  function AfterRuns(runs: seq<Run>, rows: seq<Row>): seq<Row> {
    if runs == [] then rows else runs[|runs| - 1].Reindex(AfterRuns(runs[..|runs| - 1], rows))
  }

  /** Rows come from the old table or are fresh. */
  lemma {:induction false} StoredRows(run: Run, rows: seq<Row>, ds: seq<Definition>, n: nat, r: Row)
    requires n <= |ds| && r in run.StoreFirst(rows, ds, n)
    ensures r in rows || exists i :: 0 <= i < |ds| && r == run.Fresh(ds[i])
  {
    if n > 0 {
      var before := run.StoreFirst(rows, ds, n - 1);
      if r in before {
        StoredRows(run, rows, ds, n - 1, r);
      } else {
        assert r == run.Fresh(ds[n - 1]);
      }
    }
  }

  lemma {:induction false} RemovedRows(run: Run, rows: seq<Row>, names: seq<string>, r: Row)
    requires r in run.RemoveStale(rows, names)
    ensures r in rows
    decreases |names|
  {
    if names != [] {
      RemovedRows(run, if run.Defined(names[0]) || run.faults.stale(names[0]) then rows
                       else Delete(rows, run.conn, names[0]), names[1..], r);
    }
  }

  /** A row left by a run was there before or is fresh. */
  lemma ReindexedRows(run: Run, rows: seq<Row>, r: Row)
    requires r in run.Reindex(rows)
    ensures r in rows || exists d :: d in run.defs && r == run.Fresh(d)
  {
    var p := run.Pending(rows, run.defs);
    if r !in run.Stored(rows) {
      RemovedRows(run, run.Stored(rows), Names(run.Stored(rows), run.conn), r);
    }
    StoredRows(run, rows, p, |p|, r);
    if r !in rows {
      var i :| 0 <= i < |p| && r == run.Fresh(p[i]);
      PendingMembers(run, rows, run.defs);
      assert p[i] in run.defs;
    }
  }

  lemma ReindexStaysFaithful(run: Run, rows: seq<Row>)
    requires Injective(run.env) && Faithful(run.env, rows)
    ensures Faithful(run.env, run.Reindex(rows))
  {
    forall r, text | r in run.Reindex(rows) && run.env.hash(text) == r.hash
      ensures r.vector == run.env.embed(r.model, text)
    {
      ReindexedRows(run, rows, r);
    }
  }

  /** All runs use one digest and the same models. */
  ghost predicate SameEnv(runs: seq<Run>, env: Env) {
    forall i | 0 <= i < |runs| :: runs[i].env == env
  }

  lemma {:induction false} AfterRunsKeeps(env: Env, runs: seq<Run>, rows: seq<Row>, conn: string)
    requires SameEnv(runs, env) && Injective(env)
    requires OneRowEach(rows, conn) && Faithful(env, rows)
    ensures OneRowEach(AfterRuns(runs, rows), conn) && Faithful(env, AfterRuns(runs, rows))
  {
    if runs != [] {
      var front, last := runs[..|runs| - 1], runs[|runs| - 1];
      AfterRunsKeeps(env, front, rows, conn);
      ReindexKeepsOneRowEach(last, AfterRuns(front, rows), conn);
      ReindexStaysFaithful(last, AfterRuns(front, rows));
    }
  }

  lemma SameRebuild(run: Run, a: seq<Row>, b: seq<Row>)
    requires NoFaults(run.faults) && Distinct(run.defs)
    ensures SameRows(Rebuild(run, a), Rebuild(run, b), run.conn)
  {
    forall name
      ensures View(Rebuild(run, a), run.conn, name) == View(Rebuild(run, b), run.conn, name)
    {
      if i :| 0 <= i < |run.defs| && run.defs[i].name == name {
        RebuildIsFresh(run, a, run.defs[i]);
        RebuildIsFresh(run, b, run.defs[i]);
      } else {
        ViewOfGone(run, Filter(a, NotOfConnection(run.conn)), name);
        ViewOfGone(run, Filter(b, NotOfConnection(run.conn)), name);
      }
    }
  }

  /**
   After any number of runs, whatever they indexed and however they failed, one successful run leaves the
   rows of a rebuild exactly when it skips no object that has changed its kind.
   */
  lemma RecoversIff(run: Run, runs: seq<Run>, rows: seq<Row>)
    requires NoFaults(run.faults) && Distinct(run.defs) && Injective(run.env) && SameEnv(runs, run.env)
    requires OneRowEach(rows, run.conn) && Faithful(run.env, rows)
    ensures SameRows(run.Reindex(AfterRuns(runs, rows)), Rebuild(run, rows), run.conn)
      <==> KindsAgree(run, AfterRuns(runs, rows))
  {
    var t := AfterRuns(runs, rows);
    AfterRunsKeeps(run.env, runs, rows, run.conn);
    ReindexEqualsRebuildIff(run, t);
    SameRebuild(run, t, rows);
  }

  /** An object has its old kind wherever an earlier run on its connection knew its text. */
  ghost predicate SameKinds(run: Run, earlier: Run) {
    forall d, was | d in run.defs && was in earlier.defs :: SameKind(run, earlier, d, was)
  }

  predicate SameKind(run: Run, earlier: Run, d: Definition, was: Definition) {
    (earlier.conn == run.conn && earlier.model == run.model && was.name == d.name
     && run.env.hash(was.text) == run.env.hash(d.text)) ==> was.kind == d.kind
  }

  ghost predicate KindsNeverChange(run: Run, runs: seq<Run>) {
    forall i | 0 <= i < |runs| :: SameKinds(run, runs[i])
  }

  lemma ReindexKeepsKinds(run: Run, earlier: Run, rows: seq<Row>)
    requires OneRowEach(rows, run.conn) && KindsAgree(run, rows)
    requires earlier.env == run.env && SameKinds(run, earlier)
    ensures KindsAgree(run, earlier.Reindex(rows))
  {
    var after := earlier.Reindex(rows);
    forall i | 0 <= i < |run.defs|
      ensures KindAgrees(run, after, run.defs[i])
    {
      var d := run.defs[i];
      ViewIs(after, run.conn, d.name);
      if View(after, run.conn, d.name).Some? {
        var r := View(after, run.conn, d.name).value;
        ReindexedRows(earlier, rows, r);
        assert KindAgrees(run, rows, d);
        if r in rows {
          ViewFinds(rows, r);
        } else {
          var was :| was in earlier.defs && r == earlier.Fresh(was);
          assert SameKind(run, earlier, d, was);
        }
      }
    }
  }

  lemma {:induction false} KindsStillAgree(run: Run, runs: seq<Run>, rows: seq<Row>)
    requires SameEnv(runs, run.env) && KindsNeverChange(run, runs)
    requires OneRowEach(rows, run.conn) && KindsAgree(run, rows)
    ensures KindsAgree(run, AfterRuns(runs, rows)) && OneRowEach(AfterRuns(runs, rows), run.conn)
  {
    if runs != [] {
      var front, last := runs[..|runs| - 1], runs[|runs| - 1];
      KindsStillAgree(run, front, rows);
      ReindexKeepsKinds(run, last, AfterRuns(front, rows));
      ReindexKeepsOneRowEach(last, AfterRuns(front, rows), run.conn);
    }
  }

  /** In particular it recovers from any failures and changes of text if no object changes its kind alone. */
  lemma RecoversFromFailures(run: Run, runs: seq<Run>, rows: seq<Row>)
    requires NoFaults(run.faults) && Distinct(run.defs) && Injective(run.env) && SameEnv(runs, run.env)
    requires OneRowEach(rows, run.conn) && Faithful(run.env, rows)
    requires KindsAgree(run, rows) && KindsNeverChange(run, runs)
    ensures SameRows(run.Reindex(AfterRuns(runs, rows)), Rebuild(run, rows), run.conn)
  {
    KindsStillAgree(run, runs, rows);
    RecoversIff(run, runs, rows);
  }

  // ---- Names that are not distinct ----

  /**
   A PostgreSQL view and a routine may share a qualified name, and so may a MySQL procedure and a
   function. Then the table never settles: each run stores the definition that the previous one did not.
   */
  lemma SharedNamesAlternate(run: Run, a: Definition, b: Definition)
    requires NoFaults(run.faults) && run.defs == [a, b]
    requires a.name == b.name && run.env.hash(a.text) != run.env.hash(b.text)
    ensures run.Reindex([run.Fresh(b)]) == [run.Fresh(a)]
    ensures run.Reindex([run.Fresh(a)]) == [run.Fresh(b)]
  {
    ReplacesTheOther(run, a, b);
    ReplacesTheOther(run, b, a);
  }

  lemma OneIsPending(run: Run, rows: seq<Row>, a: Definition, b: Definition)
    requires run.defs == [a, b] || run.defs == [b, a]
    requires !run.Unchanged(rows, a) && run.Unchanged(rows, b)
    ensures run.Pending(rows, run.defs) == [a]
  {
    var first := run.defs[..1];
    assert first[..0] == [] && first[0] == run.defs[0];
    assert run.Pending(rows, first) == if run.defs[0] == a then [a] else [];
  }

  lemma ReplacesTheOther(run: Run, a: Definition, b: Definition)
    requires NoFaults(run.faults) && (run.defs == [a, b] || run.defs == [b, a])
    requires a.name == b.name && run.env.hash(a.text) != run.env.hash(b.text)
    ensures run.Reindex([run.Fresh(b)]) == [run.Fresh(a)]
  {
    var rows, after := [run.Fresh(b)], [run.Fresh(a)];
    OneIsPending(run, rows, a, b);
    assert Delete(rows, run.conn, a.name) == [];
    assert run.Store(rows, a, 0) == after;
    assert run.StoreFirst(rows, [a], 0) == rows && run.StoreFirst(rows, [a], 1) == after;
    assert run.defs[0].name == a.name && run.Defined(a.name);
    forall i | 0 <= i < |Names(after, run.conn)|
      ensures run.Defined(Names(after, run.conn)[i])
    {
      var name := Names(after, run.conn)[i];
      NamesAre(after, run.conn, name);
      ViewIs(after, run.conn, name);
    }
    NothingStale(run, after, Names(after, run.conn));
  }
}
