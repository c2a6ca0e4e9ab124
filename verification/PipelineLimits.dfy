/** Stores whose export is refused: one by its number of versions, one by its size alone. */
module PipelineLimits {
  import opened Wrappers
  import opened Whitespace
  import opened Decimal
  import opened PipelineDefinition
  import opened PipelineRows
  import opened PipelineImport
  import opened PipelineStore

  /** Text without capitals, in which only simple queries produce results. */
  const PLAIN := Text((s: string) => s, (s: string) => "SELECT " <= s)

  /** Saves of the same definition, which all become versions. */
  function Saves(d: Definition, n: nat): seq<Operation> {
    if n == 0 then [] else Saves(d, n - 1) + [Save(d, 0)]
  }

  ghost predicate AllAre(rows: seq<Pipeline>, d: Definition) {
    forall i | 0 <= i < |rows| :: rows[i].definition == d
  }

  ghost predicate Holds(rows: seq<Pipeline>, d: Definition, n: nat) {
    |rows| == n && AllAre(rows, d)
  }

  lemma OneSave(text: Text, rows: seq<Pipeline>, d: Definition, n: nat)
    requires IsValid(text, d) && Holds(rows, d, n)
    ensures Holds(After(text, rows, Save(d, 0)), d, n + 1)
  {
  }

  ghost predicate HoldsAfter(text: Text, ops: seq<Operation>, d: Definition, n: nat) {
    Holds(Run(text, [], ops), d, n)
  }

  lemma NoSaves(text: Text, d: Definition)
    ensures HoldsAfter(text, [], d, 0)
  {
  }

  lemma OneMoreSave(text: Text, ops: seq<Operation>, d: Definition, n: nat)
    requires IsValid(text, d) && HoldsAfter(text, ops, d, n)
    ensures HoldsAfter(text, ops + [Save(d, 0)], d, n + 1)
  {
    RunOneMore(text, [], ops, Save(d, 0));
    OneSave(text, Run(text, [], ops), d, n);
  }

  lemma {:induction false} SavesAdd(text: Text, d: Definition, n: nat)
    requires IsValid(text, d)
    ensures HoldsAfter(text, Saves(d, n), d, n)
  {
    if n == 0 {
      NoSaves(text, d);
    } else {
      SavesAdd(text, d, n - 1);
      OneMoreSave(text, Saves(d, n - 1), d, n - 1);
    }
  }

  lemma AcceptableUnchanged(text: Text, d: Definition)
    requires Acceptable(text, d) && Normal(d) == d
    ensures IsValid(text, d)
  {
    ValidatedIff(text, d);
  }

  /** The store after n saves of a definition. */
  function StoreOf(d: Definition, n: nat): seq<Pipeline> {
    Run(PLAIN, [], Saves(d, n))
  }

  // ---- Too many versions ----

  const SMALL := Definition("p", "", 1, [Step("s", "SELECT 1")])

  lemma SmallIsValid()
    ensures IsValid(PLAIN, SMALL)
  {
    TrimmedStays("p");
    TrimmedStays("");
    TrimmedStays("s");
    TrimmedStays("SELECT 1");
    assert NormalSteps(SMALL.steps) == SMALL.steps;
    AcceptableUnchanged(PLAIN, SMALL);
  }

  /** After 513 or more saves of a one-line pipeline, an export of any admissible size is refused. */
  lemma ManyVersionsAreRefused(n: nat, exported: seq<Pipeline>, size: nat)
    requires n >= 513 && size <= MAX_BUNDLE_BYTES
    requires multiset(exported) == multiset(ListRows(StoreOf(SMALL, n)))
    ensures Refusal(ExportOf(exported, size)) == Some(TooManyDefinitions)
  {
    SmallIsValid();
    SavesAdd(PLAIN, SMALL, n);
    ExportIsImportable(PLAIN, StoreOf(SMALL, n), exported, size);
  }

  // ---- Too many bytes ----

  const LONGEST := "SELECT " + seq(MAX_SQL - 7, i => 'x')

  function LongSteps(n: nat): seq<Step> {
    seq(n, i requires 0 <= i < n => Step(Itoa(i), LONGEST))
  }

  const LARGE := Definition("p", "", 1, LongSteps(MAX_STEPS))

  lemma {:induction false} NumeralIsTrimmed(n: nat)
    ensures TrimSpace(Itoa(n)) == Itoa(n)
    ensures forall i | 0 <= i < |Itoa(n)| :: !IsSpace(Itoa(n)[i])
  {
    if n >= 10 {
      NumeralIsTrimmed(n / 10);
    }
    TrimmedStays(Itoa(n));
  }

  lemma LongStepsAcceptable(n: nat)
    requires n <= MAX_STEPS
    ensures StepsAcceptable(PLAIN, LongSteps(n)) && NormalSteps(LongSteps(n)) == LongSteps(n)
  {
    var steps := LongSteps(n);
    TrimmedStays(LONGEST);
    forall i | 0 <= i < n
      ensures NormalStep(steps[i]) == steps[i] && |Itoa(i)| <= 2
    {
      NumeralIsTrimmed(i);
      ItoaLength(i, 2);
      assert Pow10(2) == 100;
    }
    forall i, j | 0 <= i < j < n
      ensures PLAIN.lower(TrimSpace(steps[i].name)) != PLAIN.lower(TrimSpace(steps[j].name))
    {
      NumeralIsTrimmed(i);
      NumeralIsTrimmed(j);
      if Itoa(i) == Itoa(j) {
        ItoaInjective(i, j);
      }
    }
  }

  lemma LargeIsValid()
    ensures IsValid(PLAIN, LARGE)
  {
    TrimmedStays("p");
    TrimmedStays("");
    LongStepsAcceptable(MAX_STEPS);
    AcceptableUnchanged(PLAIN, LARGE);
  }

  /** The characters of all statements; an encoded bundle holds them all, and its own format besides. */
  function StatementLength(steps: seq<Step>): nat {
    if steps == [] then 0 else |steps[0].sql| + StatementLength(steps[1..])
  }

  function Statements(pipelines: seq<Pipeline>): nat {
    if pipelines == [] then 0 else StatementLength(pipelines[0].definition.steps) + Statements(pipelines[1..])
  }

  lemma {:induction false} LongStatements(steps: seq<Step>)
    requires forall i | 0 <= i < |steps| :: |steps[i].sql| == MAX_SQL
    ensures StatementLength(steps) == |steps| * MAX_SQL
  {
    if steps != [] {
      LongStatements(steps[1..]);
    }
  }

  lemma {:induction false} LargeStatements(pipelines: seq<Pipeline>)
    requires AllAre(pipelines, LARGE)
    ensures Statements(pipelines) == |pipelines| * MAX_BUNDLE_BYTES / 8
  {
    if pipelines != [] {
      LongStatements(LARGE.steps);
      LargeStatements(pipelines[1..]);
    }
  }

  lemma ExportedAre(rows: seq<Pipeline>, exported: seq<Pipeline>)
    requires AllAre(rows, LARGE) && multiset(exported) == multiset(ListRows(rows))
    ensures AllAre(exported, LARGE) && |exported| == |rows|
  {
    assert |exported| == |multiset(exported)| == |multiset(ListRows(rows))| == |rows|;
    forall i | 0 <= i < |exported|
      ensures exported[i].definition == LARGE
    {
      assert exported[i] in multiset(ListRows(rows));
      assert exported[i] in ListRows(rows);
      var j :| 0 <= j < |rows| && ListRows(rows)[j] == exported[i];
    }
  }

  /** The largest pipeline can be saved any number of times. */
  lemma LargeStore(n: nat)
    ensures |StoreOf(LARGE, n)| == n && AllAre(StoreOf(LARGE, n), LARGE)
  {
    LargeIsValid();
    SavesAdd(PLAIN, LARGE, n);
  }

  /** With 8 or more versions of it, an export is refused: the statements alone reach the limit. */
  lemma LargeVersionsAreRefused(rows: seq<Pipeline>, exported: seq<Pipeline>, size: nat)
    requires |rows| >= 8 && AllAre(rows, LARGE)
    requires multiset(exported) == multiset(ListRows(rows)) && size > Statements(exported)
    ensures Refusal(ExportOf(exported, size)) == Some(TooLarge)
  {
    ExportedAre(rows, exported);
    LargeStatements(exported);
  }
}
