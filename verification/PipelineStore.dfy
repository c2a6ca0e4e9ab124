/** The pipeline store: saving, loading, deleting, exporting and importing, and runs of these. */
module PipelineStore {
  import opened Wrappers
  import opened Whitespace
  import opened Sorting
  import opened Decimal
  import opened PipelineDefinition
  import opened PipelineRows
  import opened PipelineImport

  /** The definitions stored under a name, as listing shows them. */
  function StoredUnder(rows: seq<Pipeline>, name: string): set<Definition> {
    set i | 0 <= i < |rows| && rows[i].definition.name == name :: Listed(rows[i]).definition
  }

  /** What an import has looked up so far agrees with the table. */
  ghost predicate Cached(rows: seq<Pipeline>, known: map<string, set<Definition>>) {
    forall name | name in known :: known[name] == StoredUnder(rows, name)
  }

  function Skipping(o: Outcome, n: nat): Outcome {
    o.(skipped := o.skipped + n)
  }

  lemma HistoryHoldsStored(rows: seq<Pipeline>, name: string, definitions: set<Definition>)
    requires TrimSpace(name) == name && name != ""
    requires definitions == set i | 0 <= i < |History(rows, name)| :: History(rows, name)[i].definition
    ensures definitions == StoredUnder(rows, name)
  {
    var mine := Filter(rows, ByName(name));
    var history := History(rows, name);
    SortMembers(ListRows(mine), OlderFirst);
    forall d | d in definitions
      ensures d in StoredUnder(rows, name)
    {
      var i :| 0 <= i < |history| && history[i].definition == d;
      assert history[i] in ListRows(mine);
      var j :| 0 <= j < |mine| && ListRows(mine)[j] == history[i];
      assert mine[j] in rows;
      var k :| 0 <= k < |rows| && rows[k] == mine[j];
      assert rows[k].definition.name == name && Listed(rows[k]).definition == d;
    }
    forall d | d in StoredUnder(rows, name)
      ensures d in definitions
    {
      var k :| 0 <= k < |rows| && rows[k].definition.name == name && Listed(rows[k]).definition == d;
      assert rows[k] in mine;
      var j :| 0 <= j < |mine| && mine[j] == rows[k];
      assert ListRows(mine)[j] == Listed(rows[k]);
      assert Listed(rows[k]) in history;
    }
  }

  lemma StoreOneMore(rows: seq<Pipeline>, p: Pipeline, name: string)
    ensures StoredUnder(rows + [p], name)
         == StoredUnder(rows, name) + if p.definition.name == name then {Listed(p).definition} else {}
  {
    var all := rows + [p];
    assert all[|rows|] == p;
    forall d | d in StoredUnder(rows, name)
      ensures d in StoredUnder(all, name)
    {
      var k :| 0 <= k < |rows| && rows[k].definition.name == name && Listed(rows[k]).definition == d;
      assert all[k] == rows[k];
    }
  }

  lemma CacheOneMore(text: Text, rows: seq<Pipeline>, known: map<string, set<Definition>>, p: Pipeline)
    requires Cached(rows, known) && p.definition.name in known && IsValid(text, p.definition)
    ensures Cached(rows + [p], known[p.definition.name := known[p.definition.name] + {p.definition}])
  {
    ValidNameIsTrimmed(text, p.definition);
    forall name | name in known
      ensures StoredUnder(rows + [p], name) == known[name] + if p.definition.name == name then {p.definition} else {}
    {
      StoreOneMore(rows, p, name);
    }
  }

  lemma KnownIsStoredUnder(rows: seq<Pipeline>, d: Definition)
    ensures Known(rows, d) <==> d in StoredUnder(rows, d.name)
  {
  }

  /** What the rest of the candidates still has to add to the rows and skips so far. */
  ghost predicate Remains(text: Text, whole: Outcome, rows: seq<Pipeline>, rest: seq<Pipeline>, skipped: nat, clock: nat -> int) {
    whole == Skipping(Imported(text, rows, rest, clock), skipped)
  }

  /** One turn of the import loop. */
  lemma ImportOneMore(text: Text, whole: Outcome, rows: seq<Pipeline>, candidates: seq<Pipeline>, i: nat,
                      skipped: nat, clock: nat -> int)
    requires i < |candidates| && Remains(text, whole, rows, candidates[i..], skipped, clock)
    ensures var v := Validated(text, candidates[i].definition);
      var rest := candidates[i + 1..];
      if v.Err? then whole == Outcome(rows, skipped, Some(v.error))
      else if Known(rows, v.value) then Remains(text, whole, rows, rest, skipped + 1, clock)
      else Remains(text, whole, rows + [NewVersion(rows, v.value, clock(|rows|))], rest, skipped, clock)
  {
    assert candidates[i..][1..] == candidates[i + 1..];
  }

  /** The rows of one name, as listing shows them, in the order of the table. */
  function Listing(rows: seq<Pipeline>, name: string): seq<Pipeline> {
    ListRows(Filter(rows, ByName(name)))
  }

  /** Some row of this name is listed like this; no row has an empty name to list it under. */
  ghost predicate IsListedUnder(rows: seq<Pipeline>, name: string, p: Pipeline) {
    name != "" && exists i :: 0 <= i < |rows| && rows[i].definition.name == name && Listed(rows[i]) == p
  }

  lemma ListingHolds(rows: seq<Pipeline>, name: string, p: Pipeline)
    requires name != ""
    ensures p in Listing(rows, name) <==> IsListedUnder(rows, name, p)
  {
    var mine := Filter(rows, ByName(name));
    if p in Listing(rows, name) {
      var j :| 0 <= j < |mine| && ListRows(mine)[j] == p;
      assert mine[j] in rows;
      var i :| 0 <= i < |rows| && rows[i] == mine[j];
    }
    if i :| 0 <= i < |rows| && rows[i].definition.name == name && Listed(rows[i]) == p {
      assert rows[i] in mine;
      var j :| 0 <= j < |mine| && mine[j] == rows[i];
      assert ListRows(mine)[j] == p;
    }
  }

  lemma OlderFirstTotal()
    ensures TotalPreorder(OlderFirst)
  {
  }

  /** An export comes by lower-cased name, and versions of one name in order. */
  lemma ExportOrderMeans(text: Text, pipelines: seq<Pipeline>)
    requires SortedBy(pipelines, ExportOrder(text))
    ensures forall i, j | 0 <= i < j < |pipelines| ::
      var p, q := pipelines[i], pipelines[j];
      var k, l := text.lower(p.definition.name), text.lower(q.definition.name);
      TextLeq(k, l) && (k == l ==> p.version <= q.version)
  {
    forall i, j | 0 <= i < j < |pipelines|
      ensures TextLeq(text.lower(pipelines[i].definition.name), text.lower(pipelines[j].definition.name))
      ensures text.lower(pipelines[i].definition.name) == text.lower(pipelines[j].definition.name) ==>
        pipelines[i].version <= pipelines[j].version
    {
      var k := text.lower(pipelines[i].definition.name);
      assert ExportOrder(text)(pipelines[i], pipelines[j]);
      TextTotal(k, k);
    }
  }

  /** A history is its name's listing, by version. */
  lemma HistoryMeaning(rows: seq<Pipeline>, name: string)
    ensures var h, n := History(rows, name), TrimSpace(name);
      && SortedBy(h, OlderFirst)
      && multiset(h) == multiset(if n == "" then [] else Listing(rows, n))
      && forall p :: p in h <==> IsListedUnder(rows, n, p)
  {
    var n := TrimSpace(name);
    if n != "" {
      OlderFirstTotal();
      SortSorted(Listing(rows, n), OlderFirst);
      SortPermutes(Listing(rows, n), OlderFirst);
      SortMembers(Listing(rows, n), OlderFirst);
      forall p
        ensures p in History(rows, name) <==> IsListedUnder(rows, n, p)
      {
        ListingHolds(rows, n, p);
      }
    }
  }

  ghost predicate Lists(h: seq<Pipeline>, rows: seq<Pipeline>, name: string) {
    forall p :: p in h <==> IsListedUnder(rows, name, p)
  }

  lemma HistoryLists(rows: seq<Pipeline>, name: string)
    ensures Lists(History(rows, name), rows, TrimSpace(name)) && SortedBy(History(rows, name), OlderFirst)
  {
    HistoryMeaning(rows, name);
  }

  /** Without a number the greatest version of the name is loaded, else the one asked for. */
  lemma LoadedMeaning(rows: seq<Pipeline>, name: string, version: int)
    ensures IsTheOne(rows, TrimSpace(name), version, Loaded(rows, name, version))
  {
    HistoryLists(rows, name);
    FromHistory(History(rows, name), version, Loaded(rows, name, version));
    OneOfListed(rows, TrimSpace(name), History(rows, name), version, Loaded(rows, name, version));
  }

  lemma OneOfListed(rows: seq<Pipeline>, name: string, h: seq<Pipeline>, version: int, r: Option<Pipeline>)
    requires Lists(h, rows, name)
    requires r.None? ==> forall p | p in h :: version > 0 && p.version != version
    requires r.Some? ==> r.value in h && (version > 0 ==> r.value.version == version)
    requires r.Some? && version <= 0 ==> forall p | p in h :: p.version <= r.value.version
    ensures IsTheOne(rows, name, version, r)
  {
  }

  /** A row of that name and version, or of its greatest version if none is asked for; nothing if there is none. */
  ghost predicate IsTheOne(rows: seq<Pipeline>, name: string, version: int, r: Option<Pipeline>) {
    match r
    case None => forall p | IsListedUnder(rows, name, p) :: version > 0 && p.version != version
    case Some(row) =>
      && IsListedUnder(rows, name, row) && (version > 0 ==> row.version == version)
      && forall p | IsListedUnder(rows, name, p) :: version <= 0 ==> p.version <= row.version
  }

  lemma FromHistory(h: seq<Pipeline>, version: int, r: Option<Pipeline>)
    requires SortedBy(h, OlderFirst)
    requires r == if h == [] then None else if version <= 0 then Some(h[|h| - 1]) else WithVersion(h, version)
    ensures r.None? ==> forall p | p in h :: version > 0 && p.version != version
    ensures r.Some? ==> r.value in h && (version > 0 ==> r.value.version == version)
    ensures r.Some? && version <= 0 ==> forall p | p in h :: p.version <= r.value.version
  {
    WithVersionFinds(h, version);
    if h != [] {
      LastIsGreatest(h);
    }
  }

  lemma LastIsGreatest(h: seq<Pipeline>)
    requires h != [] && SortedBy(h, OlderFirst)
    ensures h[|h| - 1] in h && forall p | p in h :: p.version <= h[|h| - 1].version
  {
    forall p | p in h
      ensures p.version <= h[|h| - 1].version
    {
      var i :| 0 <= i < |h| && h[i] == p;
      assert i == |h| - 1 || OlderFirst(h[i], h[|h| - 1]);
    }
  }

  lemma {:induction false} WithVersionFinds(history: seq<Pipeline>, version: int)
    ensures var r := WithVersion(history, version);
      && (r.Some? ==> r.value in history && r.value.version == version)
      && (r.None? ==> forall p | p in history :: p.version != version)
  {
    if history != [] {
      WithVersionFinds(history[1..], version);
    }
  }

  class PipelineStore {
    const text: Text
    var rows: seq<Pipeline>

    constructor (text: Text)
      ensures this.text == text && rows == []
    {
      this.text := text;
      rows := [];
    }

    /** Exactly the rows of the trimmed name, as listing shows them, by version. */
    method ListVersions(name: string) returns (history: seq<Pipeline>)
      ensures SortedBy(history, OlderFirst)
      ensures forall p :: p in history <==> IsListedUnder(rows, TrimSpace(name), p)
      ensures multiset(history) == multiset(if TrimSpace(name) == "" then [] else Listing(rows, TrimSpace(name)))
      ensures history == History(rows, name)
    {
      var n := TrimSpace(name);
      HistoryMeaning(rows, name);
      if n == "" {
        return [];
      }
      history := StableSort(ListRows(Filter(rows, ByName(n))), OlderFirst);
    }

    /** The greatest version of the name without a number, else the version asked for, else nothing. */
    method LoadPipeline(name: string, version: int) returns (r: Option<Pipeline>)
      ensures r == Loaded(rows, name, version)
      ensures IsTheOne(rows, TrimSpace(name), version, r)
    {
      LoadedMeaning(rows, name, version);
      var history := ListVersions(name);
      if history == [] {
        return None;
      }
      if version <= 0 {
        return Some(history[|history| - 1]);
      }
      for i := 0 to |history|
        invariant WithVersion(history, version) == WithVersion(history[i..], version)
      {
        if history[i].version == version {
          return Some(history[i]);
        }
      }
      r := None;
    }

    /** Appends a new version and changes no stored row. */
    method SavePipeline(d: Definition, now: int) returns (r: Result<Pipeline, Invalid>)
      modifies this
      ensures var v := Validated(text, d);
        if v.Err? then r == Err(v.error) && rows == old(rows)
        else r == Ok(NewVersion(old(rows), v.value, now)) && rows == old(rows) + [r.value]
      ensures r.Ok? ==> r.value.definition == Normal(d) && r.value.updatedAt == now
      ensures Versioned(old(rows)) && AllValid(text, old(rows)) && r.Ok? ==>
        forall version | version <= 0 || version == r.value.version ::
          Loaded(rows, r.value.definition.name, version) == Some(r.value)
    {
      var v := Validate(text, d);
      if v.Err? {
        return Err(v.error);
      }
      ValidationIdempotent(text, d);
      forall version | Versioned(rows) && AllValid(text, rows) && (version <= 0 || version == NewVersion(rows, v.value, now).version)
        ensures Loaded(rows + [NewVersion(rows, v.value, now)], v.value.name, version) == Some(NewVersion(rows, v.value, now))
      {
        SavedIsLoaded(text, rows, v.value, now, version);
      }
      var saved := Numbered(v.value, now);
      rows := rows + [saved];
      r := Ok(saved);
    }

    /** The next version of a definition's name; the first one sets the time of creation. */
    method Numbered(d: Definition, now: int) returns (saved: Pipeline)
      ensures saved == NewVersion(rows, d, now)
    {
      var history := ListVersions(d.name);
      saved := Pipeline(d, 1, now, now);
      if |history| > 0 {
        var latest := history[|history| - 1];
        saved := saved.(version := latest.version + 1, createdAt := latest.createdAt);
      }
    }

    /** Removes every version of a name, and nothing else. */
    method DeletePipeline(name: string) returns (ok: bool)
      modifies this
      ensures ok == (TrimSpace(name) != "")
      ensures rows == if ok then Filter(old(rows), NotNamed(TrimSpace(name))) else old(rows)
      ensures ok ==> forall p :: p in rows <==> p in old(rows) && p.definition.name != TrimSpace(name)
    {
      var n := TrimSpace(name);
      if n == "" {
        return false;
      }
      rows := Filter(rows, NotNamed(n));
      ok := true;
    }

    method WriteBundle() returns (bundle: Bundle)
      ensures bundle.format == BUNDLE_FORMAT && bundle.schemaVersion == BUNDLE_SCHEMA_VERSION
      ensures multiset(bundle.pipelines) == multiset(ListRows(rows))
      ensures SortedBy(bundle.pipelines, ExportOrder(text))
      ensures forall i, j | 0 <= i < j < |bundle.pipelines| ::
        var p, q := bundle.pipelines[i], bundle.pipelines[j];
        var k, l := text.lower(p.definition.name), text.lower(q.definition.name);
        TextLeq(k, l) && (k == l ==> p.version <= q.version)
    {
      var pipelines := StableSort(ListRows(rows), ExportOrder(text));
      SortPermutes(ListRows(rows), ExportOrder(text));
      ExportOrderTotal(text);
      SortSorted(ListRows(rows), ExportOrder(text));
      ExportOrderMeans(text, pipelines);
      bundle := Bundle(BUNDLE_FORMAT, BUNDLE_SCHEMA_VERSION, pipelines);
    }

    method DefinitionsStored(name: string) returns (definitions: set<Definition>)
      requires TrimSpace(name) == name && name != ""
      ensures definitions == StoredUnder(rows, name)
    {
      var history := ListVersions(name);
      definitions := {};
      for i := 0 to |history|
        invariant definitions == set j | 0 <= j < i :: history[j].definition
      {
        definitions := definitions + {history[i].definition};
      }
      HistoryHoldsStored(rows, name, definitions);
    }

    /** Looks a definition up, loading the stored definitions of its name on first use. */
    method LookUp(known: map<string, set<Definition>>, d: Definition)
      returns (nowKnown: map<string, set<Definition>>, found: bool)
      requires Cached(rows, known) && TrimSpace(d.name) == d.name && d.name != ""
      ensures Cached(rows, nowKnown) && d.name in nowKnown
      ensures found <==> Known(rows, d)
    {
      nowKnown := known;
      if d.name !in known {
        var stored := DefinitionsStored(d.name);
        nowKnown := known[d.name := stored];
      }
      found := d in nowKnown[d.name];
      KnownIsStoredUnder(rows, d);
    }

    /** Imports one candidate: refused, already stored, or saved as a new version. */
    method ImportOne(candidate: Pipeline, now: int, known: map<string, set<Definition>>)
      returns (r: Result<Option<Pipeline>, Invalid>, nowKnown: map<string, set<Definition>>)
      requires Cached(rows, known)
      modifies this
      ensures Cached(rows, nowKnown)
      ensures var v := Validated(text, candidate.definition);
        if v.Err? then r == Err(v.error) && rows == old(rows)
        else if Known(old(rows), v.value) then r == Ok(None) && rows == old(rows)
        else r == Ok(Some(NewVersion(old(rows), v.value, now))) && rows == old(rows) + [r.value.value]
    {
      nowKnown := known;
      var valid := Validate(text, candidate.definition);
      if valid.Err? {
        return Err(valid.error), known;
      }
      var d := valid.value;
      ValidationIdempotent(text, candidate.definition);
      ValidNameIsTrimmed(text, d);
      var stored;
      nowKnown, stored := LookUp(known, d);
      if stored {
        return Ok(None), nowKnown;
      }
      CacheOneMore(text, rows, nowKnown, NewVersion(rows, d, now));
      var saved := SavePipeline(d, now);
      nowKnown := nowKnown[d.name := nowKnown[d.name] + {d}];
      r := Ok(Some(saved.value));
    }

    method ImportCandidates(candidates: seq<Pipeline>, clock: nat -> int)
      returns (r: Result<(seq<Pipeline>, nat), Refused>)
      modifies this
      ensures var o := Imported(text, old(rows), candidates, clock);
        && rows == o.rows
        && (o.error.Some? ==> r == Err(Rejected(o.error.value)))
        && (o.error.None? ==> r.Ok? && rows == old(rows) + r.value.0 && r.value.1 == o.skipped)
    {
      var known: map<string, set<Definition>> := map[];
      var imported: seq<Pipeline> := [];
      var skipped := 0;
      ghost var whole := Imported(text, rows, candidates, clock);
      for i := 0 to |candidates|
        invariant rows == old(rows) + imported
        invariant Cached(rows, known)
        invariant Remains(text, whole, rows, candidates[i..], skipped, clock)
      {
        ImportOneMore(text, whole, rows, candidates, i, skipped, clock);
        var one;
        one, known := ImportOne(candidates[i], clock(|rows|), known);
        if one.Err? {
          return Err(Rejected(one.error));
        }
        if one.value.None? {
          skipped := skipped + 1;
        } else {
          imported := imported + [one.value.value];
        }
      }
      r := Ok((imported, skipped));
    }

    method ReadBundle(source: Source, clock: nat -> int) returns (r: Result<(seq<Pipeline>, nat), Refused>)
      modifies this
      ensures var o := Receive(text, old(rows), source, clock);
        && rows == o.rows
        && (o.error.Some? ==> r == Err(o.error.value))
        && (o.error.None? ==> r.Ok? && rows == old(rows) + r.value.0 && r.value.1 == o.skipped)
    {
      var refusal := Refusal(source);
      if refusal.Some? {
        return Err(refusal.value);
      }
      r := ImportCandidates(StableSort(source.content.bundle.pipelines, ImportOrder(text)), clock);
    }
  }

  // ---- Runs ----

  datatype Operation =
    | Save(definition: Definition, now: int)
    | Import(source: Source, clock: nat -> int)
    | Delete(name: string)

  /** The table after one operation, accepted or refused. */
  function After(text: Text, rows: seq<Pipeline>, op: Operation): seq<Pipeline> {
    match op
    case Save(d, now) =>
      var v := Validated(text, d);
      if v.Err? then rows else rows + [NewVersion(rows, v.value, now)]
    case Import(source, clock) => Receive(text, rows, source, clock).rows
    case Delete(name) =>
      if TrimSpace(name) == "" then rows else Filter(rows, NotNamed(TrimSpace(name)))
  }

  function Run(text: Text, rows: seq<Pipeline>, ops: seq<Operation>): seq<Pipeline>
    decreases |ops|
  {
    if ops == [] then rows else Run(text, After(text, rows, ops[0]), ops[1..])
  }

  lemma ReceiveKeeps(text: Text, rows: seq<Pipeline>, source: Source, clock: nat -> int)
    requires Versioned(rows) && AllValid(text, rows)
    ensures var r := Receive(text, rows, source, clock); rows <= r.rows && Versioned(r.rows) && AllValid(text, r.rows)
  {
    if Refusal(source).None? {
      ImportKeeps(text, rows, StableSort(source.content.bundle.pipelines, ImportOrder(text)), clock);
    }
  }

  lemma StepKeeps(text: Text, rows: seq<Pipeline>, op: Operation)
    requires Versioned(rows) && AllValid(text, rows)
    ensures Versioned(After(text, rows, op)) && AllValid(text, After(text, rows, op))
  {
    match op
    case Save(d, now) =>
      if Validated(text, d).Ok? {
        ValidationIdempotent(text, d);
        SaveKeeps(text, rows, Validated(text, d).value, now);
      }
    case Import(source, clock) => ReceiveKeeps(text, rows, source, clock);
    case Delete(name) =>
      DeleteKeeps(text, rows, TrimSpace(name));
  }

  /** In every run each name's versions are 1, 2, 3 and so on, and every stored definition is valid. */
  lemma {:induction false} EveryRunKeeps(text: Text, rows: seq<Pipeline>, ops: seq<Operation>)
    requires Versioned(rows) && AllValid(text, rows)
    ensures Versioned(Run(text, rows, ops)) && AllValid(text, Run(text, rows, ops))
    decreases |ops|
  {
    if ops != [] {
      StepKeeps(text, rows, ops[0]);
      EveryRunKeeps(text, After(text, rows, ops[0]), ops[1..]);
    }
  }

  lemma {:induction false} ImportKeepsDates(text: Text, rows: seq<Pipeline>, candidates: seq<Pipeline>, clock: nat -> int)
    requires Versioned(rows) && AllValid(text, rows) && Dated(rows)
    ensures Dated(Imported(text, rows, candidates, clock).rows)
    decreases |candidates|
  {
    if candidates != [] && Validated(text, candidates[0].definition).Ok? {
      var d := Validated(text, candidates[0].definition).value;
      if Known(rows, d) {
        ImportKeepsDates(text, rows, candidates[1..], clock);
      } else {
        ValidationIdempotent(text, candidates[0].definition);
        SaveKeeps(text, rows, d, clock(|rows|));
        SaveKeepsDates(text, rows, d, clock(|rows|));
        ImportKeepsDates(text, rows + [NewVersion(rows, d, clock(|rows|))], candidates[1..], clock);
      }
    }
  }

  lemma StepKeepsDates(text: Text, rows: seq<Pipeline>, op: Operation)
    requires Versioned(rows) && AllValid(text, rows) && Dated(rows)
    ensures Dated(After(text, rows, op))
  {
    match op
    case Save(d, now) =>
      if Validated(text, d).Ok? {
        ValidationIdempotent(text, d);
        SaveKeepsDates(text, rows, Validated(text, d).value, now);
      }
    case Import(source, clock) =>
      if Refusal(source).None? {
        ImportKeepsDates(text, rows, StableSort(source.content.bundle.pipelines, ImportOrder(text)), clock);
      }
    case Delete(name) => FilterKeepsDates(rows, TrimSpace(name));
  }

  /** In every run the versions of a name share the time at which its first one was written as time of creation. */
  lemma {:induction false} EveryRunKeepsDates(text: Text, rows: seq<Pipeline>, ops: seq<Operation>)
    requires Versioned(rows) && AllValid(text, rows) && Dated(rows)
    ensures Dated(Run(text, rows, ops))
    decreases |ops|
  {
    if ops != [] {
      StepKeeps(text, rows, ops[0]);
      StepKeepsDates(text, rows, ops[0]);
      EveryRunKeepsDates(text, After(text, rows, ops[0]), ops[1..]);
    }
  }

  predicate NeverDeletes(ops: seq<Operation>, name: string) {
    forall i | 0 <= i < |ops| :: ops[i].Delete? ==> TrimSpace(ops[i].name) != name
  }

  lemma PrefixFilter(rows: seq<Pipeline>, after: seq<Pipeline>, name: string)
    requires rows <= after
    ensures Filter(rows, ByName(name)) <= Filter(after, ByName(name))
  {
    FilterAppend(rows, after[|rows|..], ByName(name));
    assert after == rows + after[|rows|..];
  }

  lemma StepOnlyAppends(text: Text, rows: seq<Pipeline>, op: Operation, name: string)
    requires Versioned(rows) && AllValid(text, rows)
    requires op.Delete? ==> TrimSpace(op.name) != name
    ensures Filter(rows, ByName(name)) <= Filter(After(text, rows, op), ByName(name))
  {
    match op
    case Save(_, _) =>
      PrefixFilter(rows, After(text, rows, op), name);
    case Import(source, clock) =>
      ReceiveKeeps(text, rows, source, clock);
      PrefixFilter(rows, After(text, rows, op), name);
    case Delete(gone) =>
      FilterFilter(rows, TrimSpace(gone), name);
  }

  lemma {:induction false} RunOnlyAppends(text: Text, rows: seq<Pipeline>, ops: seq<Operation>, name: string)
    requires Versioned(rows) && AllValid(text, rows) && NeverDeletes(ops, name)
    ensures Filter(rows, ByName(name)) <= Filter(Run(text, rows, ops), ByName(name))
    decreases |ops|
  {
    if ops != [] {
      StepOnlyAppends(text, rows, ops[0], name);
      StepKeeps(text, rows, ops[0]);
      assert forall i | 0 <= i < |ops[1..]| :: ops[1..][i] == ops[i + 1];
      RunOnlyAppends(text, After(text, rows, ops[0]), ops[1..], name);
    }
  }

  /** As long as its name is not deleted, a stored version means the same for ever. */
  lemma StoredVersionsNeverChange(text: Text, rows: seq<Pipeline>, ops: seq<Operation>, name: string, version: int)
    requires Versioned(rows) && AllValid(text, rows) && NeverDeletes(ops, name)
    requires TrimSpace(name) == name && name != "" && version > 0
    requires Loaded(rows, name, version).Some?
    ensures Loaded(Run(text, rows, ops), name, version) == Loaded(rows, name, version)
  {
    LoadedIs(text, rows, name, version);
    EveryRunKeeps(text, rows, ops);
    LoadedIs(text, Run(text, rows, ops), name, version);
    RunOnlyAppends(text, rows, ops, name);
  }

  /** Every version stored before loads the same row after. */
  ghost predicate VersionsKept(before: seq<Pipeline>, after: seq<Pipeline>, name: string) {
    forall version | version > 0 && Loaded(before, name, version).Some? ::
      Loaded(after, name, version) == Loaded(before, name, version)
  }

  lemma PrefixKeepsVersions(text: Text, before: seq<Pipeline>, after: seq<Pipeline>, name: string)
    requires Versioned(before) && AllValid(text, before) && Versioned(after) && AllValid(text, after)
    requires TrimSpace(name) == name && name != "" && Filter(before, ByName(name)) <= Filter(after, ByName(name))
    ensures VersionsKept(before, after, name)
  {
    forall version | version > 0 && Loaded(before, name, version).Some?
      ensures Loaded(after, name, version) == Loaded(before, name, version)
    {
      LoadedIs(text, before, name, version);
      LoadedIs(text, after, name, version);
    }
  }

  lemma DeleteLosesVersions(text: Text, rows: seq<Pipeline>, reached: seq<Pipeline>, name: string)
    requires Versioned(rows) && AllValid(text, rows) && Versioned(reached) && AllValid(text, reached)
    requires TrimSpace(name) == name && name != "" && Filter(rows, ByName(name)) != []
    ensures !VersionsKept(rows, Filter(reached, NotNamed(name)), name)
  {
    DeleteKeeps(text, reached, name);
    FilterFilter(reached, name, name);
    LoadedIs(text, rows, name, 1);
    LoadedIs(text, Filter(reached, NotNamed(name)), name, 1);
    assert Loaded(rows, name, 1).Some?;
  }

  /** One operation keeps the stored versions of a name exactly when it does not delete that name. */
  lemma StepKeepsVersionsIff(text: Text, rows: seq<Pipeline>, op: Operation, name: string)
    requires Versioned(rows) && AllValid(text, rows)
    requires TrimSpace(name) == name && name != "" && Filter(rows, ByName(name)) != []
    ensures VersionsKept(rows, After(text, rows, op), name) <==> !(op.Delete? && TrimSpace(op.name) == name)
  {
    if op.Delete? && TrimSpace(op.name) == name {
      DeleteLosesVersions(text, rows, rows, name);
    } else {
      StepKeeps(text, rows, op);
      StepOnlyAppends(text, rows, op, name);
      PrefixKeepsVersions(text, rows, After(text, rows, op), name);
    }
  }

  lemma {:induction false} RunOneMore(text: Text, rows: seq<Pipeline>, ops: seq<Operation>, op: Operation)
    ensures Run(text, rows, ops + [op]) == After(text, Run(text, rows, ops), op)
    decreases |ops|
  {
    if ops == [] {
      assert [] + [op] == [op] && [op][1..] == [];
    } else {
      assert (ops + [op])[1..] == ops[1..] + [op];
      RunOneMore(text, After(text, rows, ops[0]), ops[1..], op);
    }
  }

  /** At every moment of a run, the versions stored at its start load the same rows. */
  ghost predicate AlwaysKept(text: Text, rows: seq<Pipeline>, ops: seq<Operation>, name: string) {
    forall k | 0 <= k <= |ops| :: VersionsKept(rows, Run(text, rows, ops[..k]), name)
  }

  lemma KeptUpTo(text: Text, rows: seq<Pipeline>, ops: seq<Operation>, k: nat, name: string)
    requires Versioned(rows) && AllValid(text, rows) && NeverDeletes(ops, name) && k <= |ops|
    requires TrimSpace(name) == name && name != ""
    ensures VersionsKept(rows, Run(text, rows, ops[..k]), name)
  {
    assert NeverDeletes(ops[..k], name);
    EveryRunKeeps(text, rows, ops[..k]);
    RunOnlyAppends(text, rows, ops[..k], name);
    PrefixKeepsVersions(text, rows, Run(text, rows, ops[..k]), name);
  }

  lemma RunUpTo(text: Text, rows: seq<Pipeline>, ops: seq<Operation>, i: nat)
    requires i < |ops|
    ensures Run(text, rows, ops[..i + 1]) == After(text, Run(text, rows, ops[..i]), ops[i])
  {
    assert ops[..i + 1] == ops[..i] + [ops[i]];
    RunOneMore(text, rows, ops[..i], ops[i]);
  }

  lemma LostAt(text: Text, rows: seq<Pipeline>, ops: seq<Operation>, i: nat, name: string)
    requires Versioned(rows) && AllValid(text, rows)
    requires TrimSpace(name) == name && name != "" && Filter(rows, ByName(name)) != []
    requires i < |ops| && ops[i].Delete? && TrimSpace(ops[i].name) == name
    ensures !VersionsKept(rows, Run(text, rows, ops[..i + 1]), name)
  {
    EveryRunKeeps(text, rows, ops[..i]);
    RunUpTo(text, rows, ops, i);
    DeleteLosesVersions(text, rows, Run(text, rows, ops[..i]), name);
  }

  /** A run keeps the stored versions of a name throughout exactly when it never deletes that name. */
  lemma VersionsAlwaysKeptIff(text: Text, rows: seq<Pipeline>, ops: seq<Operation>, name: string)
    requires Versioned(rows) && AllValid(text, rows)
    requires TrimSpace(name) == name && name != "" && Filter(rows, ByName(name)) != []
    ensures AlwaysKept(text, rows, ops, name) <==> NeverDeletes(ops, name)
  {
    forall k | 0 <= k <= |ops| && NeverDeletes(ops, name)
      ensures VersionsKept(rows, Run(text, rows, ops[..k]), name)
    {
      KeptUpTo(text, rows, ops, k, name);
    }
    forall i | 0 <= i < |ops| && ops[i].Delete? && TrimSpace(ops[i].name) == name
      ensures !AlwaysKept(text, rows, ops, name)
    {
      LostAt(text, rows, ops, i, name);
    }
  }
}
