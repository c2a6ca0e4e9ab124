/** The table of pipeline versions as values: listing, saving, importing and what they keep. */
module PipelineRows {
  import opened Wrappers
  import opened Whitespace
  import opened Sorting
  import opened PipelineDefinition

  datatype Pipeline = Pipeline(definition: Definition, version: int, createdAt: int, updatedAt: int)

  function ByName(name: string): Pipeline -> bool {
    (p: Pipeline) => p.definition.name == name
  }

  function NotNamed(name: string): Pipeline -> bool {
    (p: Pipeline) => p.definition.name != name
  }

  predicate OlderFirst(a: Pipeline, b: Pipeline) { a.version <= b.version }

  /** A row as it is listed: definitions from before parallelism existed run sequentially. */
  function Listed(p: Pipeline): Pipeline {
    if p.definition.maxParallelism <= 0 then p.(definition := p.definition.(maxParallelism := 1)) else p
  }

  lemma ListedMeaning(p: Pipeline)
    ensures p.definition.maxParallelism >= 1 ==> Listed(p) == p
    ensures Listed(p).definition.maxParallelism == if p.definition.maxParallelism >= 1 then p.definition.maxParallelism else 1
    ensures Listed(p).(definition := p.definition) == p
    ensures Listed(p).definition.(maxParallelism := p.definition.maxParallelism) == p.definition
  {
  }

  function ListRows(rows: seq<Pipeline>): seq<Pipeline> {
    Map(rows, Listed)
  }

  /** All versions of a name, oldest first. */
  function History(rows: seq<Pipeline>, name: string): seq<Pipeline> {
    var n := TrimSpace(name);
    if n == "" then [] else StableSort(ListRows(Filter(rows, ByName(n))), OlderFirst)
  }

  function Loaded(rows: seq<Pipeline>, name: string, version: int): Option<Pipeline> {
    var history := History(rows, name);
    if history == [] then None
    else if version <= 0 then Some(history[|history| - 1])
    else WithVersion(history, version)
  }

  function WithVersion(history: seq<Pipeline>, version: int): Option<Pipeline> {
    if history == [] then None
    else if history[0].version == version then Some(history[0])
    else WithVersion(history[1..], version)
  }

  /** The row that saving an already normalized definition appends. */
  function NewVersion(rows: seq<Pipeline>, d: Definition, now: int): Pipeline {
    var history := History(rows, d.name);
    if history == [] then Pipeline(d, 1, now, now)
    else
      var latest := history[|history| - 1];
      Pipeline(d, latest.version + 1, latest.createdAt, now)
  }

  /** Some version of the definition's name has this very definition. */
  predicate Known(rows: seq<Pipeline>, d: Definition) {
    exists i :: 0 <= i < |rows| && rows[i].definition.name == d.name && Listed(rows[i]).definition == d
  }

  // ---- The invariant ----

  /** Versions are 1, 2, 3 and so on. */
  ghost predicate Consecutive(s: seq<Pipeline>) {
    forall i | 0 <= i < |s| :: s[i].version == i + 1
  }

  ghost predicate Versioned(rows: seq<Pipeline>) {
    forall name :: Consecutive(Filter(rows, ByName(name)))
  }

  ghost predicate AllValid(text: Text, rows: seq<Pipeline>) {
    forall i | 0 <= i < |rows| :: IsValid(text, rows[i].definition)
  }

  lemma {:induction false} ListedRowsAreRows(text: Text, rows: seq<Pipeline>)
    requires AllValid(text, rows)
    ensures ListRows(rows) == rows
  {
    forall i | 0 <= i < |rows|
      ensures Listed(rows[i]) == rows[i]
    {
      ValidNameIsTrimmed(text, rows[i].definition);
    }
  }

  lemma FilterValid(text: Text, rows: seq<Pipeline>, keep: Pipeline -> bool)
    requires AllValid(text, rows)
    ensures AllValid(text, Filter(rows, keep))
  {
    var f := Filter(rows, keep);
    forall i | 0 <= i < |f|
      ensures IsValid(text, f[i].definition)
    {
      assert f[i] in rows;
    }
  }

  /** In a good table a name's history is its rows in the order they were saved. */
  lemma HistoryIsRows(text: Text, rows: seq<Pipeline>, name: string)
    requires Versioned(rows) && AllValid(text, rows) && TrimSpace(name) == name && name != ""
    ensures History(rows, name) == Filter(rows, ByName(name))
  {
    var mine := Filter(rows, ByName(name));
    FilterValid(text, rows, ByName(name));
    ListedRowsAreRows(text, mine);
    assert Consecutive(mine);
    SortOfSorted(mine, OlderFirst);
  }

  lemma FilterOneMore(rows: seq<Pipeline>, p: Pipeline, name: string)
    ensures Filter(rows + [p], ByName(name)) == Filter(rows, ByName(name)) + if p.definition.name == name then [p] else []
  {
    FilterAppend(rows, [p], ByName(name));
    assert [p][1..] == [];
  }

  lemma NextVersion(text: Text, rows: seq<Pipeline>, d: Definition, now: int)
    requires Versioned(rows) && AllValid(text, rows) && IsValid(text, d)
    ensures NewVersion(rows, d, now).version == |Filter(rows, ByName(d.name))| + 1
  {
    ValidNameIsTrimmed(text, d);
    HistoryIsRows(text, rows, d.name);
    assert Consecutive(Filter(rows, ByName(d.name)));
  }

  /** Saving continues the numbering of its own name and leaves the others alone. */
  lemma SaveKeeps(text: Text, rows: seq<Pipeline>, d: Definition, now: int)
    requires Versioned(rows) && AllValid(text, rows) && IsValid(text, d)
    ensures var after := rows + [NewVersion(rows, d, now)]; Versioned(after) && AllValid(text, after)
  {
    var p := NewVersion(rows, d, now);
    NextVersion(text, rows, d, now);
    forall name
      ensures Consecutive(Filter(rows + [p], ByName(name)))
    {
      FilterOneMore(rows, p, name);
      assert Consecutive(Filter(rows, ByName(name)));
    }
  }

  lemma {:induction false} FilterFilter(rows: seq<Pipeline>, gone: string, name: string)
    ensures Filter(Filter(rows, NotNamed(gone)), ByName(name)) == if name == gone then [] else Filter(rows, ByName(name))
  {
    if rows != [] {
      FilterFilter(rows[1..], gone, name);
      if NotNamed(gone)(rows[0]) {
        assert Filter(rows, NotNamed(gone))[1..] == Filter(rows[1..], NotNamed(gone));
      } else {
        assert Filter(rows, NotNamed(gone)) == Filter(rows[1..], NotNamed(gone));
      }
    }
  }

  lemma DeleteKeeps(text: Text, rows: seq<Pipeline>, gone: string)
    requires Versioned(rows) && AllValid(text, rows)
    ensures Versioned(Filter(rows, NotNamed(gone))) && AllValid(text, Filter(rows, NotNamed(gone)))
  {
    FilterValid(text, rows, NotNamed(gone));
    forall name
      ensures Consecutive(Filter(Filter(rows, NotNamed(gone)), ByName(name)))
    {
      FilterFilter(rows, gone, name);
      assert Consecutive(Filter(rows, ByName(name)));
    }
  }

  // ---- Loading ----

  lemma {:induction false} WithVersionAt(history: seq<Pipeline>, from: nat, version: int)
    requires forall i | 0 <= i < |history| :: history[i].version == from + i
    ensures WithVersion(history, version)
         == if from <= version < from + |history| then Some(history[version - from]) else None
  {
    if history != [] && history[0].version != version {
      WithVersionAt(history[1..], from + 1, version);
    }
  }

  /** A name has exactly the versions 1 to the number of its rows, and each is the row saved at that turn. */
  lemma LoadedIs(text: Text, rows: seq<Pipeline>, name: string, version: int)
    requires Versioned(rows) && AllValid(text, rows) && TrimSpace(name) == name && name != "" && version > 0
    ensures var mine := Filter(rows, ByName(name));
      Loaded(rows, name, version) == if version <= |mine| then Some(mine[version - 1]) else None
  {
    HistoryIsRows(text, rows, name);
    assert Consecutive(Filter(rows, ByName(name)));
    WithVersionAt(Filter(rows, ByName(name)), 1, version);
  }

  /** Without a number, the row saved last is loaded. */
  lemma LatestIs(text: Text, rows: seq<Pipeline>, name: string, version: int)
    requires Versioned(rows) && AllValid(text, rows) && TrimSpace(name) == name && name != "" && version <= 0
    ensures var mine := Filter(rows, ByName(name));
      Loaded(rows, name, version) == if mine == [] then None else Some(mine[|mine| - 1])
  {
    HistoryIsRows(text, rows, name);
  }

  /** What was just saved is loaded, both under its number and without one. */
  lemma SavedIsLoaded(text: Text, rows: seq<Pipeline>, d: Definition, now: int, version: int)
    requires Versioned(rows) && AllValid(text, rows) && IsValid(text, d)
    requires version <= 0 || version == NewVersion(rows, d, now).version
    ensures Loaded(rows + [NewVersion(rows, d, now)], d.name, version) == Some(NewVersion(rows, d, now))
  {
    var p := NewVersion(rows, d, now);
    ValidNameIsTrimmed(text, d);
    NextVersion(text, rows, d, now);
    SaveKeeps(text, rows, d, now);
    FilterOneMore(rows, p, d.name);
    if version <= 0 {
      LatestIs(text, rows + [p], d.name, version);
    } else {
      LoadedIs(text, rows + [p], d.name, version);
    }
  }

  /** All versions of a name have one time of creation, which is when its first version was written. */
  ghost predicate Dated(rows: seq<Pipeline>) {
    forall name :: SameCreation(Filter(rows, ByName(name)))
  }

  ghost predicate SameCreation(s: seq<Pipeline>) {
    forall i | 0 <= i < |s| :: s[i].createdAt == s[0].updatedAt
  }

  lemma SaveKeepsDates(text: Text, rows: seq<Pipeline>, d: Definition, now: int)
    requires Versioned(rows) && AllValid(text, rows) && IsValid(text, d) && Dated(rows)
    ensures var p := NewVersion(rows, d, now);
      Dated(rows + [p]) && p.definition == d && p.updatedAt == now
  {
    var p := NewVersion(rows, d, now);
    ValidNameIsTrimmed(text, d);
    HistoryIsRows(text, rows, d.name);
    forall name
      ensures SameCreation(Filter(rows + [p], ByName(name)))
    {
      FilterOneMore(rows, p, name);
      assert SameCreation(Filter(rows, ByName(name)));
    }
  }

  lemma {:induction false} FilterKeepsDates(rows: seq<Pipeline>, gone: string)
    requires Dated(rows)
    ensures Dated(Filter(rows, NotNamed(gone)))
  {
    forall name
      ensures SameCreation(Filter(Filter(rows, NotNamed(gone)), ByName(name)))
    {
      FilterFilter(rows, gone, name);
      assert SameCreation(Filter(rows, ByName(name)));
    }
  }

  /** After a delete the numbering starts again, so the same version can come to mean something else. */
  lemma DeleteReusesVersions(text: Text, d: Definition, e: Definition, now: int)
    requires IsValid(text, d) && IsValid(text, e) && d.name == e.name && d != e
    ensures var before := [NewVersion([], d, now)];
      var after := Filter(before, NotNamed(d.name)) + [NewVersion(Filter(before, NotNamed(d.name)), e, now)];
      && Loaded(before, d.name, 1).Some? && Loaded(after, d.name, 1).Some?
      && Loaded(before, d.name, 1).value.definition == d && Loaded(after, d.name, 1).value.definition == e
  {
    assert Versioned([]);
    SaveKeeps(text, [], d, now);
    SaveKeeps(text, [], e, now);
    var before, after := [NewVersion([], d, now)], [NewVersion([], e, now)];
    assert [] + before == before && [] + after == after;
    assert Filter(before, NotNamed(d.name)) == [];
    ValidNameIsTrimmed(text, d);
    LoadedIs(text, before, d.name, 1);
    LoadedIs(text, after, d.name, 1);
    assert Filter(before, ByName(d.name)) == before && Filter(after, ByName(d.name)) == after;
  }
}
