/** Importing bundles of pipeline definitions, and what it adds to the table of versions. */
module PipelineImport {
  import opened Wrappers
  import opened Whitespace
  import opened Decimal
  import opened Sorting
  import opened PipelineDefinition
  import opened PipelineRows

  const BUNDLE_FORMAT := "datadock.pipeline.bundle"
  const BUNDLE_SCHEMA_VERSION := 1
  const MAX_BUNDLE_PIPELINES := 512
  const MAX_BUNDLE_BYTES := 16777216

  datatype Bundle = Bundle(format: string, schemaVersion: int, pipelines: seq<Pipeline>)

  /** What decoding the bytes of an upload gives: one bundle, possibly followed by something else. */
  datatype Content = Unreadable | Single(bundle: Bundle) | Several(bundle: Bundle) | TrailingGarbage(bundle: Bundle)

  /** What is imported from: nothing, a reader that fails, or so many bytes. */
  datatype Source = NoReader | Broken | Data(size: nat, content: Content)

  datatype Refused =
    | ReaderRequired | ReadFailed | TooLarge | Undecodable | MoreThanOneValue | BadTrailingData
    | UnsupportedFormat | UnsupportedSchema | TooManyDefinitions | Rejected(invalid: Invalid)

  /** What is in the table after an import, how many candidates were skipped, and what stopped it. */
  datatype Outcome = Outcome(rows: seq<Pipeline>, skipped: nat, error: Option<Invalid>)

  /** By name, then by version. */
  predicate Before(k: string, v: int, l: string, w: int) {
    if k == l then v <= w else TextLeq(k, l)
  }

  function ImportOrder(text: Text): (Pipeline, Pipeline) -> bool {
    (a: Pipeline, b: Pipeline) =>
      Before(text.lower(TrimSpace(a.definition.name)), a.version, text.lower(TrimSpace(b.definition.name)), b.version)
  }

  function ExportOrder(text: Text): (Pipeline, Pipeline) -> bool {
    (a: Pipeline, b: Pipeline) =>
      Before(text.lower(a.definition.name), a.version, text.lower(b.definition.name), b.version)
  }

  /** Takes the candidates in turn; `clock` gives the time at which each row is written. */
  function Imported(text: Text, rows: seq<Pipeline>, candidates: seq<Pipeline>, clock: nat -> int): Outcome
    decreases |candidates|
  {
    if candidates == [] then Outcome(rows, 0, None)
    else
      var valid := Validated(text, candidates[0].definition);
      if valid.Err? then Outcome(rows, 0, Some(valid.error))
      else if Known(rows, valid.value) then
        var rest := Imported(text, rows, candidates[1..], clock);
        rest.(skipped := rest.skipped + 1)
      else
        Imported(text, rows + [NewVersion(rows, valid.value, clock(|rows|))], candidates[1..], clock)
  }

  function BundleRefusal(bundle: Bundle): Option<Refused> {
    if bundle.format != BUNDLE_FORMAT then Some(UnsupportedFormat)
    else if bundle.schemaVersion != BUNDLE_SCHEMA_VERSION then Some(UnsupportedSchema)
    else if |bundle.pipelines| > MAX_BUNDLE_PIPELINES then Some(TooManyDefinitions)
    else None
  }

  /** What refuses a source before any definition is looked at. */
  function Refusal(source: Source): Option<Refused> {
    match source
    case NoReader => Some(ReaderRequired)
    case Broken => Some(ReadFailed)
    case Data(size, content) =>
      if size > MAX_BUNDLE_BYTES then Some(TooLarge)
      else
        match content
        case Unreadable => Some(Undecodable)
        case Several(_) => Some(MoreThanOneValue)
        case TrailingGarbage(_) => Some(BadTrailingData)
        case Single(bundle) => BundleRefusal(bundle)
  }

  function ImportBundle(text: Text, rows: seq<Pipeline>, bundle: Bundle, clock: nat -> int): Outcome {
    Imported(text, rows, StableSort(bundle.pipelines, ImportOrder(text)), clock)
  }

  /** What is in the table after reading a source, how many candidates were skipped, and what refused it. */
  datatype Received = Received(rows: seq<Pipeline>, skipped: nat, error: Option<Refused>)

  function Receive(text: Text, rows: seq<Pipeline>, source: Source, clock: nat -> int): Received {
    if Refusal(source).Some? then Received(rows, 0, Refusal(source))
    else
      var o := ImportBundle(text, rows, source.content.bundle, clock);
      Received(o.rows, o.skipped, if o.error.None? then None else Some(Rejected(o.error.value)))
  }

  // ---- What an import adds ----

  function DefinitionOf(p: Pipeline): Definition { p.definition }

  function Definitions(rows: seq<Pipeline>): seq<Definition> {
    Map(rows, DefinitionOf)
  }

  ghost predicate AllAcceptable(text: Text, candidates: seq<Pipeline>) {
    forall i | 0 <= i < |candidates| :: Validated(text, candidates[i].definition).Ok?
  }

  /** The candidates' definitions as validation leaves them. */
  function Normalized(text: Text, candidates: seq<Pipeline>): seq<Definition>
    requires AllAcceptable(text, candidates)
  {
    if candidates == [] then []
    else [Validated(text, candidates[0].definition).value] + Normalized(text, candidates[1..])
  }

  lemma KnownIsStored(text: Text, rows: seq<Pipeline>, d: Definition)
    requires AllValid(text, rows)
    ensures Known(rows, d) <==> d in Definitions(rows)
  {
    ListedRowsAreRows(text, rows);
    assert forall i | 0 <= i < |rows| :: Listed(rows[i]) == ListRows(rows)[i] == rows[i];
    if d in Definitions(rows) {
      var i :| 0 <= i < |rows| && Definitions(rows)[i] == d;
      assert rows[i].definition.name == d.name && Listed(rows[i]).definition == d;
    } else {
      forall i | 0 <= i < |rows|
        ensures Listed(rows[i]).definition != d
      {
        assert Definitions(rows)[i] == rows[i].definition;
      }
    }
  }

  lemma OneMoreDefinition(rows: seq<Pipeline>, p: Pipeline)
    ensures Definitions(rows + [p]) == Definitions(rows) + [p.definition]
  {
  }

  /** An import appends exactly the definitions that were not stored yet, each once, in candidate order. */
  lemma {:induction false} ImportAddsNew(text: Text, rows: seq<Pipeline>, candidates: seq<Pipeline>, clock: nat -> int)
    requires Versioned(rows) && AllValid(text, rows) && AllAcceptable(text, candidates)
    ensures var o := Imported(text, rows, candidates, clock);
      && o.error == None
      && Definitions(o.rows) == AddNew(Definitions(rows), Normalized(text, candidates))
      && |o.rows| + o.skipped == |rows| + |candidates|
    decreases |candidates|
  {
    if candidates != [] {
      var d := Validated(text, candidates[0].definition).value;
      ValidationIdempotent(text, candidates[0].definition);
      KnownIsStored(text, rows, d);
      if Known(rows, d) {
        ImportAddsNew(text, rows, candidates[1..], clock);
      } else {
        var p := NewVersion(rows, d, clock(|rows|));
        SaveKeeps(text, rows, d, clock(|rows|));
        OneMoreDefinition(rows, p);
        ImportAddsNew(text, rows + [p], candidates[1..], clock);
      }
    }
  }

  /** Whatever the bundle holds, an import only appends, and leaves a table with the store's invariant. */
  lemma {:induction false} ImportKeeps(text: Text, rows: seq<Pipeline>, candidates: seq<Pipeline>, clock: nat -> int)
    requires Versioned(rows) && AllValid(text, rows)
    ensures var o := Imported(text, rows, candidates, clock);
      rows <= o.rows && Versioned(o.rows) && AllValid(text, o.rows)
    decreases |candidates|
  {
    if candidates != [] && Validated(text, candidates[0].definition).Ok? {
      var d := Validated(text, candidates[0].definition).value;
      if Known(rows, d) {
        ImportKeeps(text, rows, candidates[1..], clock);
      } else {
        ValidationIdempotent(text, candidates[0].definition);
        SaveKeeps(text, rows, d, clock(|rows|));
        ImportKeeps(text, rows + [NewVersion(rows, d, clock(|rows|))], candidates[1..], clock);
      }
    }
  }

  /** The first unacceptable candidate stops the import with its error; what came before it stays saved. */
  lemma {:induction false} ImportStopsAt(text: Text, rows: seq<Pipeline>, candidates: seq<Pipeline>, k: nat, clock: nat -> int)
    requires k < |candidates| && AllAcceptable(text, candidates[..k])
    requires Validated(text, candidates[k].definition).Err?
    ensures var o := Imported(text, rows, candidates, clock);
      && o.error == Some(Validated(text, candidates[k].definition).error)
      && o.rows == Imported(text, rows, candidates[..k], clock).rows
    decreases |candidates|
  {
    if k > 0 {
      assert Validated(text, candidates[..k][0].definition).Ok?;
      assert candidates[..k][1..] == candidates[1..][..k - 1];
      var tail := candidates[1..][..k - 1];
      forall i | 0 <= i < |tail|
        ensures Validated(text, tail[i].definition).Ok?
      {
        assert tail[i] == candidates[..k][i + 1];
      }
      var d := Validated(text, candidates[0].definition).value;
      ImportStopsAt(text, if Known(rows, d) then rows else rows + [NewVersion(rows, d, clock(|rows|))],
                    candidates[1..], k - 1, clock);
    }
  }

  // ---- In which order an import adds ----

  /** The rows from n on come by lower-cased name, none of them before k. */
  ghost predicate ByNameFrom(text: Text, rows: seq<Pipeline>, n: nat, k: string) {
    && (forall i | n <= i < |rows| :: TextLeq(k, text.lower(rows[i].definition.name)))
    && (forall i, j | n <= i < j < |rows| ::
          TextLeq(text.lower(rows[i].definition.name), text.lower(rows[j].definition.name)))
  }

  function KeyOf(text: Text, p: Pipeline): string {
    text.lower(TrimSpace(p.definition.name))
  }

  lemma NextKeyIsLater(text: Text, candidates: seq<Pipeline>)
    requires |candidates| > 1 && SortedBy(candidates, ImportOrder(text))
    ensures TextLeq(KeyOf(text, candidates[0]), KeyOf(text, candidates[1]))
  {
    assert ImportOrder(text)(candidates[0], candidates[1]);
    TextTotal(KeyOf(text, candidates[0]), KeyOf(text, candidates[0]));
  }

  lemma LaterKeyFrom(text: Text, rows: seq<Pipeline>, n: nat, k: string, l: string)
    requires ByNameFrom(text, rows, n, l) && TextLeq(k, l)
    ensures ByNameFrom(text, rows, n, k)
  {
    forall i | n <= i < |rows|
      ensures TextLeq(k, text.lower(rows[i].definition.name))
    {
      TextTransitive(k, l, text.lower(rows[i].definition.name));
    }
  }

  lemma OneMoreInFront(text: Text, rows: seq<Pipeline>, n: nat, k: string)
    requires n < |rows| && text.lower(rows[n].definition.name) == k && ByNameFrom(text, rows, n + 1, k)
    ensures ByNameFrom(text, rows, n, k)
  {
    TextTotal(k, k);
  }

  lemma NothingFrom(text: Text, rows: seq<Pipeline>, k: string)
    ensures ByNameFrom(text, rows, |rows|, k)
  {
  }

  /** However an import ends, what it adds comes in the order of the sorted candidates' names. */
  lemma {:induction false} ImportedInOrder(text: Text, rows: seq<Pipeline>, candidates: seq<Pipeline>, clock: nat -> int, k: string)
    requires SortedBy(candidates, ImportOrder(text))
    requires candidates != [] ==> TextLeq(k, KeyOf(text, candidates[0]))
    ensures var o := Imported(text, rows, candidates, clock);
      rows <= o.rows && ByNameFrom(text, o.rows, |rows|, k)
    decreases |candidates|
  {
    var o := Imported(text, rows, candidates, clock);
    if candidates == [] || Validated(text, candidates[0].definition).Err? {
      NothingFrom(text, rows, k);
    } else {
      var d, rest, key := Validated(text, candidates[0].definition).value, candidates[1..], KeyOf(text, candidates[0]);
      ValidatedIff(text, candidates[0].definition);
      assert d.name == TrimSpace(candidates[0].definition.name);
      if rest != [] {
        NextKeyIsLater(text, candidates);
      }
      if Known(rows, d) {
        ImportedInOrder(text, rows, rest, clock, key);
      } else {
        var p := NewVersion(rows, d, clock(|rows|));
        ImportedInOrder(text, rows + [p], rest, clock, key);
        assert o.rows[|rows|] == (rows + [p])[|rows|];
        OneMoreInFront(text, o.rows, |rows|, key);
      }
      LaterKeyFrom(text, o.rows, |rows|, k, key);
    }
  }

  /** Rows read from a bundle come by lower-cased name, in whatever order the bundle lists them. */
  lemma ReceivedInOrder(text: Text, rows: seq<Pipeline>, source: Source, clock: nat -> int)
    ensures var r := Receive(text, rows, source, clock);
      && rows <= r.rows
      && forall i, j | |rows| <= i < j < |r.rows| ::
           TextLeq(text.lower(r.rows[i].definition.name), text.lower(r.rows[j].definition.name))
  {
    if Refusal(source).None? {
      var pipelines := source.content.bundle.pipelines;
      ImportOrderTotal(text);
      SortSorted(pipelines, ImportOrder(text));
      ImportedInOrder(text, rows, StableSort(pipelines, ImportOrder(text)), clock, "");
    }
  }

  /** What is accepted for import, and which refusal goes before which. */
  lemma RefusalMeaning(source: Source)
    ensures var r := Refusal(source);
      && (r == Some(ReaderRequired) <==> source.NoReader?)
      && (r == Some(ReadFailed) <==> source.Broken?)
      && (r == Some(TooLarge) <==> source.Data? && source.size > 16 * 1024 * 1024)
      && (source.Data? && source.size <= 16 * 1024 * 1024 ==>
            var c := source.content;
            && (r == Some(Undecodable) <==> c.Unreadable?)
            && (r == Some(MoreThanOneValue) <==> c.Several?)
            && (r == Some(BadTrailingData) <==> c.TrailingGarbage?)
            && (c.Single? ==>
                  && (r == Some(UnsupportedFormat) <==> c.bundle.format != "datadock.pipeline.bundle")
                  && (r == Some(UnsupportedSchema) <==>
                        c.bundle.format == "datadock.pipeline.bundle" && c.bundle.schemaVersion != 1)
                  && (r == None <==>
                        c.bundle.format == "datadock.pipeline.bundle" && c.bundle.schemaVersion == 1
                        && |c.bundle.pipelines| <= 512)))
  {
  }

  lemma {:induction false} NormalizedMember(text: Text, candidates: seq<Pipeline>, i: nat)
    requires AllAcceptable(text, candidates) && i < |candidates|
    ensures Validated(text, candidates[i].definition).value in Normalized(text, candidates)
  {
    if i > 0 {
      NormalizedMember(text, candidates[1..], i - 1);
    }
  }

  lemma {:induction false} AddNewMembers<T(!new)>(known: seq<T>, more: seq<T>)
    ensures forall x :: x in AddNew(known, more) <==> x in known || x in more
    decreases |more|
  {
    if more != [] {
      AddNewMembers(if more[0] in known then known else known + [more[0]], more[1..]);
    }
  }

  lemma {:induction false} AllKnownAllSkipped(text: Text, rows: seq<Pipeline>, candidates: seq<Pipeline>, clock: nat -> int)
    requires AllAcceptable(text, candidates)
    requires forall i | 0 <= i < |candidates| :: Known(rows, Validated(text, candidates[i].definition).value)
    ensures Imported(text, rows, candidates, clock) == Outcome(rows, |candidates|, None)
  {
    if candidates != [] {
      AllKnownAllSkipped(text, rows, candidates[1..], clock);
    }
  }

  lemma SortAcceptable(text: Text, pipelines: seq<Pipeline>, leq: (Pipeline, Pipeline) -> bool)
    requires AllAcceptable(text, pipelines)
    ensures AllAcceptable(text, StableSort(pipelines, leq))
  {
    SortMembers(pipelines, leq);
    var s := StableSort(pipelines, leq);
    forall i | 0 <= i < |s|
      ensures Validated(text, s[i].definition).Ok?
    {
      assert s[i] in pipelines;
    }
  }

  lemma StillKnown(text: Text, rows: seq<Pipeline>, more: seq<Pipeline>, d: Definition)
    requires AllValid(text, rows + more) && d in Definitions(rows)
    ensures Known(rows + more, d)
  {
    assert Definitions(rows + more) == Definitions(rows) + Definitions(more);
    KnownIsStored(text, rows + more, d);
  }

  /** Importing a bundle a second time adds nothing, also when other definitions were saved in between. */
  lemma ReimportAddsNothing(text: Text, rows: seq<Pipeline>, source: Source, more: seq<Pipeline>,
                            clock: nat -> int, later: nat -> int)
    requires Versioned(rows) && AllValid(text, rows)
    requires Refusal(source).None? && AllAcceptable(text, source.content.bundle.pipelines)
    requires AllValid(text, Receive(text, rows, source, clock).rows + more)
    ensures var again := Receive(text, rows, source, clock).rows + more;
      Receive(text, again, source, later) == Received(again, |source.content.bundle.pipelines|, None)
  {
    var bundle := source.content.bundle;
    var candidates := StableSort(bundle.pipelines, ImportOrder(text));
    SortAcceptable(text, bundle.pipelines, ImportOrder(text));
    var once := Imported(text, rows, candidates, clock).rows;
    var again := once + more;
    ImportAddsNew(text, rows, candidates, clock);
    AddNewMembers(Definitions(rows), Normalized(text, candidates));
    forall i | 0 <= i < |candidates|
      ensures Known(again, Validated(text, candidates[i].definition).value)
    {
      NormalizedMember(text, candidates, i);
      StillKnown(text, once, more, Validated(text, candidates[i].definition).value);
    }
    AllKnownAllSkipped(text, again, candidates, later);
  }

  // ---- Exporting and importing elsewhere ----

  function Named(name: string): Definition -> bool {
    (d: Definition) => d.name == name
  }

  /** A name's stored definitions, in the order of the table. */
  function DefinitionsOf(rows: seq<Pipeline>, name: string): seq<Definition> {
    Definitions(Filter(rows, ByName(name)))
  }

  lemma {:induction false} DefinitionsFilter(rows: seq<Pipeline>, name: string)
    ensures Filter(Definitions(rows), Named(name)) == DefinitionsOf(rows, name)
  {
    if rows != [] {
      DefinitionsFilter(rows[1..], name);
      assert Definitions(rows)[1..] == Definitions(rows[1..]);
      var rest := Filter(rows[1..], ByName(name));
      if ByName(name)(rows[0]) {
        assert Definitions([rows[0]] + rest) == [rows[0].definition] + Definitions(rest);
      } else {
        assert Filter(rows, ByName(name)) == rest;
      }
    }
  }

  /** Dropping repetitions commutes with keeping one name. */
  lemma {:induction false} FilterAddNew<T(!new)>(known: seq<T>, more: seq<T>, keep: T -> bool)
    ensures Filter(AddNew(known, more), keep) == AddNew(Filter(known, keep), Filter(more, keep))
    decreases |more|
  {
    if more != [] {
      var x, rest := more[0], more[1..];
      var next := if x in known then known else known + [x];
      FilterAddNew(next, rest, keep);
      FilterAppend(known, [x], keep);
      assert [x][1..] == [];
      if keep(x) {
        assert Filter(more, keep)[1..] == Filter(rest, keep) && Filter(more, keep)[0] == x;
        assert Filter([x], keep) == [x];
        var mine := Filter(known, keep);
        assert Filter(next, keep) == if x in mine then mine else mine + [x];
      } else {
        assert Filter(more, keep) == Filter(rest, keep);
        assert Filter(next, keep) == Filter(known, keep);
      }
    }
  }

  lemma {:induction false} NormalizedValid(text: Text, candidates: seq<Pipeline>)
    requires AllValid(text, candidates)
    ensures AllAcceptable(text, candidates) && Normalized(text, candidates) == Definitions(candidates)
  {
    if candidates != [] {
      assert IsValid(text, candidates[0].definition);
      forall i | 0 <= i < |candidates|
        ensures Validated(text, candidates[i].definition).Ok?
      {
        assert IsValid(text, candidates[i].definition);
      }
      NormalizedValid(text, candidates[1..]);
      assert Definitions(candidates) == [candidates[0].definition] + Definitions(candidates[1..]);
    }
  }

  lemma BeforeTotal(k: string, v: int, l: string, w: int)
    ensures Before(k, v, l, w) || Before(l, w, k, v)
  {
    TextTotal(k, l);
  }

  lemma BeforeTransitive(k: string, v: int, l: string, w: int, m: string, x: int)
    requires Before(k, v, l, w) && Before(l, w, m, x)
    ensures Before(k, v, m, x)
  {
    TextTotal(k, l);
    TextTotal(l, m);
    TextTotal(k, m);
    if k != l && l != m {
      TextTransitive(k, l, m);
    }
  }

  lemma ImportOrderTotal(text: Text)
    ensures TotalPreorder(ImportOrder(text))
  {
    var leq := ImportOrder(text);
    var key := (p: Pipeline) => text.lower(TrimSpace(p.definition.name));
    forall a, b
      ensures leq(a, b) || leq(b, a)
    {
      BeforeTotal(key(a), a.version, key(b), b.version);
    }
    forall a, b, c | leq(a, b) && leq(b, c)
      ensures leq(a, c)
    {
      BeforeTransitive(key(a), a.version, key(b), b.version, key(c), c.version);
    }
  }

  lemma ExportOrderTotal(text: Text)
    ensures TotalPreorder(ExportOrder(text))
  {
    var leq := ExportOrder(text);
    var key := (p: Pipeline) => text.lower(p.definition.name);
    forall a, b
      ensures leq(a, b) || leq(b, a)
    {
      BeforeTotal(key(a), a.version, key(b), b.version);
    }
    forall a, b, c | leq(a, b) && leq(b, c)
      ensures leq(a, c)
    {
      BeforeTransitive(key(a), a.version, key(b), b.version, key(c), c.version);
    }
  }

  lemma {:induction false} FilterCounts<T(!new)>(s: seq<T>, keep: T -> bool, x: T)
    ensures multiset(Filter(s, keep))[x] == if keep(x) then multiset(s)[x] else 0
  {
    if s != [] {
      FilterCounts(s[1..], keep, x);
      assert s == [s[0]] + s[1..];
      assert multiset(s)[x] == multiset(s[1..])[x] + if s[0] == x then 1 else 0;
      if keep(s[0]) {
        assert Filter(s, keep) == [s[0]] + Filter(s[1..], keep);
      } else {
        assert Filter(s, keep) == Filter(s[1..], keep);
      }
    }
  }

  /** Two arrangements of rows numbered 1, 2, 3 and so on, sorted by number, are the same. */
  lemma SortedVersionsUnique(s: seq<Pipeline>, t: seq<Pipeline>)
    requires multiset(s) == multiset(t) && Consecutive(t)
    requires forall i, j | 0 <= i < j < |s| :: s[i].version <= s[j].version
    ensures s == t
  {
    assert |s| == |multiset(s)| == |multiset(t)| == |t|;
    forall i | 0 <= i < |s|
      ensures 1 <= s[i].version <= |t| && t[s[i].version - 1] == s[i]
    {
      assert s[i] in multiset(t);
      assert s[i] in t;
    }
    AllDifferentVersions(t);
    forall i, j | 0 <= i < j < |s|
      ensures s[i].version < s[j].version
    {
      if s[i].version == s[j].version {
        RepeatedCounts(s, i, j);
        DifferentCounts(t, s[i]);
      }
    }
    StrictlyUp(s, |s|);
  }

  lemma AllDifferentVersions(t: seq<Pipeline>)
    requires Consecutive(t)
    ensures AllDifferent(t)
  {
    forall i, j | 0 <= i < j < |t|
      ensures t[i] != t[j]
    {
      assert t[i].version == i + 1 && t[j].version == j + 1;
    }
  }

  lemma {:induction false} StrictlyUp(s: seq<Pipeline>, n: nat)
    requires n <= |s|
    requires forall i | 0 <= i < |s| :: 1 <= s[i].version <= |s|
    requires forall i, j | 0 <= i < j < |s| :: s[i].version < s[j].version
    ensures forall i | 0 <= i < n :: s[i].version == i + 1
  {
    if n > 0 {
      StrictlyUp(s, n - 1);
      AtLeast(s, n - 1);
      AtMost(s, n - 1);
    }
  }

  lemma {:induction false} AtLeast(s: seq<Pipeline>, i: nat)
    requires i < |s|
    requires forall i | 0 <= i < |s| :: 1 <= s[i].version <= |s|
    requires forall i, j | 0 <= i < j < |s| :: s[i].version < s[j].version
    ensures s[i].version >= i + 1
  {
    if i > 0 {
      AtLeast(s, i - 1);
    }
  }

  lemma {:induction false} AtMost(s: seq<Pipeline>, i: nat)
    requires i < |s|
    requires forall i | 0 <= i < |s| :: 1 <= s[i].version <= |s|
    requires forall i, j | 0 <= i < j < |s| :: s[i].version < s[j].version
    ensures s[i].version <= i + 1
    decreases |s| - i
  {
    if i + 1 < |s| {
      AtMost(s, i + 1);
    }
  }

  lemma FilterPermutes<T(!new)>(s: seq<T>, t: seq<T>, keep: T -> bool)
    requires multiset(s) == multiset(t)
    ensures multiset(Filter(s, keep)) == multiset(Filter(t, keep))
  {
    forall x
      ensures multiset(Filter(s, keep))[x] == multiset(Filter(t, keep))[x]
    {
      FilterCounts(s, keep, x);
      FilterCounts(t, keep, x);
    }
  }

  lemma OneNameByVersion(text: Text, s: seq<Pipeline>, name: string)
    requires SortedBy(s, ImportOrder(text)) && forall p | p in s :: p.definition.name == name
    ensures forall i, j | 0 <= i < j < |s| :: s[i].version <= s[j].version
  {
    forall i, j | 0 <= i < j < |s|
      ensures s[i].version <= s[j].version
    {
      assert s[i] in s && s[j] in s;
      var key := text.lower(TrimSpace(name));
      assert ImportOrder(text)(s[i], s[j]) && Before(key, s[i].version, key, s[j].version);
    }
  }

  /** However an export orders the rows, sorting for the import brings a name's versions back in order. */
  lemma ImportRestoresOrder(text: Text, rows: seq<Pipeline>, exported: seq<Pipeline>, name: string)
    requires Versioned(rows) && multiset(exported) == multiset(rows)
    ensures Filter(StableSort(exported, ImportOrder(text)), ByName(name)) == Filter(rows, ByName(name))
  {
    var leq, keep := ImportOrder(text), ByName(name);
    var s := Filter(StableSort(exported, leq), keep);
    ImportOrderTotal(text);
    FilterSort(exported, leq, keep);
    SortSorted(Filter(exported, keep), leq);
    SortPermutes(exported, leq);
    FilterPermutes(StableSort(exported, leq), rows, keep);
    OneNameByVersion(text, s, name);
    assert Consecutive(Filter(rows, keep));
    SortedVersionsUnique(s, Filter(rows, keep));
  }

  lemma PermutedValid(text: Text, rows: seq<Pipeline>, exported: seq<Pipeline>)
    requires AllValid(text, rows) && multiset(exported) == multiset(rows)
    ensures AllValid(text, exported)
  {
    forall i | 0 <= i < |exported|
      ensures IsValid(text, exported[i].definition)
    {
      assert exported[i] in multiset(rows);
      assert exported[i] in rows;
    }
  }

  /** The bytes of an export: so many, and decoding to the exported rows. */
  function ExportOf(exported: seq<Pipeline>, size: nat): Source {
    Data(size, Single(Bundle(BUNDLE_FORMAT, BUNDLE_SCHEMA_VERSION, exported)))
  }

  /** An export can be read again exactly when it keeps to both limits: 512 versions and 16 MiB. */
  lemma ExportIsImportable(text: Text, rows: seq<Pipeline>, exported: seq<Pipeline>, size: nat)
    requires multiset(exported) == multiset(ListRows(rows))
    ensures Refusal(ExportOf(exported, size)) == None <==> size <= MAX_BUNDLE_BYTES && |rows| <= MAX_BUNDLE_PIPELINES
    ensures size > MAX_BUNDLE_BYTES ==> Refusal(ExportOf(exported, size)) == Some(TooLarge)
    ensures size <= MAX_BUNDLE_BYTES && |rows| > MAX_BUNDLE_PIPELINES ==>
      Refusal(ExportOf(exported, size)) == Some(TooManyDefinitions)
  {
    assert |exported| == |multiset(exported)| == |multiset(ListRows(rows))| == |rows|;
  }

  /** Every name has its old definitions, each once, in order of their first version, numbered 1, 2, 3 and so on. */
  ghost predicate SameHistories(after: seq<Pipeline>, rows: seq<Pipeline>) {
    forall name ::
      && FirstOccurrences(DefinitionsOf(after, name), DefinitionsOf(rows, name))
      && Consecutive(Filter(after, ByName(name)))
  }

  /** Importing an export within the limits into an empty store reproduces the histories; beyond them, nothing. */
  lemma ImportOfExport(text: Text, rows: seq<Pipeline>, exported: seq<Pipeline>, size: nat, clock: nat -> int)
    requires Versioned(rows) && AllValid(text, rows) && multiset(exported) == multiset(ListRows(rows))
    ensures var r := Receive(text, [], ExportOf(exported, size), clock);
      if size <= MAX_BUNDLE_BYTES && |rows| <= MAX_BUNDLE_PIPELINES
      then r.error == None && SameHistories(r.rows, rows) && |r.rows| + r.skipped == |rows|
      else r.error.Some? && r.rows == []
  {
    ExportIsImportable(text, rows, exported, size);
    var o := ImportBundle(text, [], Bundle(BUNDLE_FORMAT, BUNDLE_SCHEMA_VERSION, exported), clock);
    forall name
      ensures FirstOccurrences(DefinitionsOf(o.rows, name), DefinitionsOf(rows, name))
      ensures Consecutive(Filter(o.rows, ByName(name)))
    {
      NameIsReproduced(text, rows, exported, clock, name);
    }
    NameIsReproduced(text, rows, exported, clock, "");
  }

  lemma NameIsReproduced(text: Text, rows: seq<Pipeline>, exported: seq<Pipeline>, clock: nat -> int, name: string)
    requires Versioned(rows) && AllValid(text, rows) && multiset(exported) == multiset(ListRows(rows))
    ensures var o := ImportBundle(text, [], Bundle(BUNDLE_FORMAT, BUNDLE_SCHEMA_VERSION, exported), clock);
      && o.error == None && |o.rows| + o.skipped == |rows|
      && FirstOccurrences(DefinitionsOf(o.rows, name), DefinitionsOf(rows, name))
      && Consecutive(Filter(o.rows, ByName(name)))
  {
    ListedRowsAreRows(text, rows);
    PermutedValid(text, rows, exported);
    assert |exported| == |multiset(exported)| == |rows|;
    var candidates := StableSort(exported, ImportOrder(text));
    SortPermutes(exported, ImportOrder(text));
    PermutedValid(text, rows, candidates);
    NormalizedValid(text, candidates);
    assert Versioned([]) && AllValid(text, []) && Definitions([]) == [];
    ImportAddsNew(text, [], candidates, clock);
    ImportKeeps(text, [], candidates, clock);
    var o := Imported(text, [], candidates, clock);
    DefinitionsFilter(o.rows, name);
    DefinitionsFilter(candidates, name);
    FilterAddNew([], Definitions(candidates), Named(name));
    ImportRestoresOrder(text, rows, exported, name);
    DistinctElements(DefinitionsOf(rows, name));
  }
}
