/** Pipeline definitions and their validation, which also normalizes them. */
module PipelineDefinition {
  import opened Wrappers
  import opened Whitespace

  const MAX_NAME := 128
  const MAX_DESCRIPTION := 4000
  const MAX_STEPS := 32
  const MAX_STEP_NAME := 128
  const MAX_SQL := 65536
  const MAX_PARALLELISM := 4

  datatype Step = Step(name: string, sql: string)

  datatype Definition = Definition(name: string, description: string, maxParallelism: int, steps: seq<Step>)

  /** Lower-casing, and whether a statement is a single one that produces a result. */
  datatype Text = Text(lower: string -> string, resultProducing: string -> bool)

  datatype Invalid =
    | NameRequired | NameTooLong | DescriptionTooLong | ParallelismTooHigh | NoSteps | TooManySteps
    | StepNameRequired(index: nat) | StepNameTooLong(index: nat) | StepNameDuplicated(index: nat)
    | SqlRequired(index: nat) | SqlTooLong(index: nat) | NotResultProducing(index: nat)

  /** One step, given the lower-cased names before it. */
  function CheckedStep(text: Text, step: Step, index: nat, seen: set<string>): Result<Step, Invalid> {
    var name, sql := TrimSpace(step.name), TrimSpace(step.sql);
    if name == "" then Err(StepNameRequired(index))
    else if |name| > MAX_STEP_NAME then Err(StepNameTooLong(index))
    else if text.lower(name) in seen then Err(StepNameDuplicated(index))
    else if sql == "" then Err(SqlRequired(index))
    else if |sql| > MAX_SQL then Err(SqlTooLong(index))
    else if !text.resultProducing(sql) then Err(NotResultProducing(index))
    else Ok(Step(name, sql))
  }

  function LowerNames(text: Text, steps: seq<Step>): set<string> {
    set i | 0 <= i < |steps| :: text.lower(steps[i].name)
  }

  function CheckedSteps(text: Text, steps: seq<Step>): (r: Result<seq<Step>, Invalid>)
    ensures r.Ok? ==> |r.value| == |steps|
  {
    if steps == [] then Ok([])
    else
      var n := |steps| - 1;
      var front := CheckedSteps(text, steps[..n]);
      if front.Err? then front
      else
        var last := CheckedStep(text, steps[n], n, LowerNames(text, front.value));
        if last.Err? then Err(last.error) else Ok(front.value + [last.value])
  }

  function Header(d: Definition): Result<Definition, Invalid> {
    var name, description := TrimSpace(d.name), TrimSpace(d.description);
    var parallelism := if d.maxParallelism <= 0 then 1 else d.maxParallelism;
    if name == "" then Err(NameRequired)
    else if |name| > MAX_NAME then Err(NameTooLong)
    else if |description| > MAX_DESCRIPTION then Err(DescriptionTooLong)
    else if parallelism > MAX_PARALLELISM then Err(ParallelismTooHigh)
    else if |d.steps| == 0 then Err(NoSteps)
    else if |d.steps| > MAX_STEPS then Err(TooManySteps)
    else Ok(Definition(name, description, parallelism, d.steps))
  }

  function Validated(text: Text, d: Definition): Result<Definition, Invalid> {
    var header := Header(d);
    if header.Err? then header
    else
      var steps := CheckedSteps(text, d.steps);
      if steps.Err? then Err(steps.error) else Ok(header.value.(steps := steps.value))
  }

  lemma OneMoreName(text: Text, steps: seq<Step>, step: Step)
    ensures LowerNames(text, steps + [step]) == LowerNames(text, steps) + {text.lower(step.name)}
  {
    var all := steps + [step];
    forall x | x in LowerNames(text, steps) + {text.lower(step.name)}
      ensures x in LowerNames(text, all)
    {
      if x in LowerNames(text, steps) {
        var i :| 0 <= i < |steps| && text.lower(steps[i].name) == x;
        assert text.lower(all[i].name) == x;
      } else {
        assert text.lower(all[|steps|].name) == x;
      }
    }
  }

  lemma CheckOneMore(text: Text, steps: seq<Step>, n: nat, front: seq<Step>)
    requires n < |steps| && CheckedSteps(text, steps[..n]) == Ok(front)
    ensures var last := CheckedStep(text, steps[n], n, LowerNames(text, front));
      CheckedSteps(text, steps[..n + 1]) == if last.Err? then Err(last.error) else Ok(front + [last.value])
  {
    assert steps[..n + 1][..n] == steps[..n];
  }

  method ValidateSteps(text: Text, given: seq<Step>) returns (r: Result<seq<Step>, Invalid>)
    ensures r == CheckedSteps(text, given)
  {
    var steps: seq<Step> := [];
    var seenNames: set<string> := {};
    for index := 0 to |given|
      invariant CheckedSteps(text, given[..index]) == Ok(steps)
      invariant seenNames == LowerNames(text, steps)
    {
      CheckOneMore(text, given, index, steps);
      var step := CheckedStep(text, given[index], index, seenNames);
      if step.Err? {
        FirstErrorStays(text, given, index + 1);
        return Err(step.error);
      }
      OneMoreName(text, steps, step.value);
      seenNames := seenNames + {text.lower(step.value.name)};
      steps := steps + [step.value];
    }
    assert given[..|given|] == given;
    r := Ok(steps);
  }

  lemma {:induction false} FirstErrorStays(text: Text, steps: seq<Step>, n: nat)
    requires n <= |steps| && CheckedSteps(text, steps[..n]).Err?
    ensures CheckedSteps(text, steps) == CheckedSteps(text, steps[..n])
    decreases |steps|
  {
    if n < |steps| {
      assert steps[..|steps| - 1][..n] == steps[..n];
      FirstErrorStays(text, steps[..|steps| - 1], n);
    } else {
      assert steps[..n] == steps;
    }
  }

  // ---- What is accepted, said without reference to the order of the checks ----

  function NormalStep(step: Step): Step {
    Step(TrimSpace(step.name), TrimSpace(step.sql))
  }

  function NormalSteps(steps: seq<Step>): (r: seq<Step>)
    ensures |r| == |steps| && forall i | 0 <= i < |steps| :: r[i] == NormalStep(steps[i])
  {
    seq(|steps|, i requires 0 <= i < |steps| => NormalStep(steps[i]))
  }

  function Normal(d: Definition): Definition {
    Definition(TrimSpace(d.name), TrimSpace(d.description), if d.maxParallelism <= 0 then 1 else d.maxParallelism,
               NormalSteps(d.steps))
  }

  predicate StepAcceptable(text: Text, step: Step) {
    var s := NormalStep(step);
    0 < |s.name| <= MAX_STEP_NAME && 0 < |s.sql| <= MAX_SQL && text.resultProducing(s.sql)
  }

  predicate StepsAcceptable(text: Text, steps: seq<Step>) {
    && (forall i | 0 <= i < |steps| :: StepAcceptable(text, steps[i]))
    && (forall i, j | 0 <= i < j < |steps| ::
          text.lower(TrimSpace(steps[i].name)) != text.lower(TrimSpace(steps[j].name)))
  }

  predicate Acceptable(text: Text, d: Definition) {
    && 0 < |TrimSpace(d.name)| <= MAX_NAME && |TrimSpace(d.description)| <= MAX_DESCRIPTION
    && d.maxParallelism <= MAX_PARALLELISM
    && 0 < |d.steps| <= MAX_STEPS && StepsAcceptable(text, d.steps)
  }

  lemma OneMoreStep(text: Text, front: seq<Step>, last: Step)
    requires StepsAcceptable(text, front)
    ensures StepsAcceptable(text, front + [last]) <==>
      StepAcceptable(text, last) && text.lower(TrimSpace(last.name)) !in LowerNames(text, NormalSteps(front))
  {
    var all, n := front + [last], |front|;
    assert all[n] == last;
    forall i | 0 <= i < n
      ensures all[i] == front[i]
      ensures text.lower(TrimSpace(front[i].name)) in LowerNames(text, NormalSteps(front))
    {
      assert text.lower(NormalSteps(front)[i].name) == text.lower(TrimSpace(front[i].name));
    }
  }

  lemma {:induction false} CheckedStepsIff(text: Text, steps: seq<Step>)
    ensures CheckedSteps(text, steps).Ok? <==> StepsAcceptable(text, steps)
    ensures StepsAcceptable(text, steps) ==> CheckedSteps(text, steps) == Ok(NormalSteps(steps))
  {
    if steps != [] {
      var front, last := steps[..|steps| - 1], steps[|steps| - 1];
      assert steps == front + [last];
      CheckedStepsIff(text, front);
      if StepsAcceptable(text, front) {
        OneMoreStep(text, front, last);
        assert NormalSteps(steps) == NormalSteps(front) + [NormalStep(last)];
      } else {
        FrontUnacceptable(text, front, last);
      }
    }
  }

  lemma FrontUnacceptable(text: Text, front: seq<Step>, last: Step)
    requires !StepsAcceptable(text, front)
    ensures !StepsAcceptable(text, front + [last])
  {
    assert forall i | 0 <= i < |front| :: (front + [last])[i] == front[i];
  }

  /** A definition is accepted exactly when it meets the limits and its step names differ, and is then normalized. */
  lemma ValidatedIff(text: Text, d: Definition)
    ensures Validated(text, d).Ok? <==> Acceptable(text, d)
    ensures Acceptable(text, d) ==> Validated(text, d) == Ok(Normal(d))
  {
    CheckedStepsIff(text, d.steps);
  }

  // ---- Which error is reported ----

  /** The definition breaks the rule that the error names. */
  ghost predicate Breaks(text: Text, d: Definition, e: Invalid) {
    match e
    case NameRequired => TrimSpace(d.name) == ""
    case NameTooLong => |TrimSpace(d.name)| > 128
    case DescriptionTooLong => |TrimSpace(d.description)| > 4000
    case ParallelismTooHigh => d.maxParallelism > 4
    case NoSteps => d.steps == []
    case TooManySteps => |d.steps| > 32
    case _ => StepBreaks(text, d.steps, e)
  }

  ghost predicate StepBreaks(text: Text, steps: seq<Step>, e: Invalid) {
    match e
    case StepNameRequired(i) => i < |steps| && TrimSpace(steps[i].name) == ""
    case StepNameTooLong(i) => i < |steps| && |TrimSpace(steps[i].name)| > 128
    case StepNameDuplicated(i) => i < |steps| && SameNameBefore(text, steps, i)
    case SqlRequired(i) => i < |steps| && TrimSpace(steps[i].sql) == ""
    case SqlTooLong(i) => i < |steps| && |TrimSpace(steps[i].sql)| > 65536
    case NotResultProducing(i) => i < |steps| && !text.resultProducing(TrimSpace(steps[i].sql))
    case _ => false
  }

  ghost predicate SameNameBefore(text: Text, steps: seq<Step>, i: nat)
    requires i < |steps|
  {
    exists j :: 0 <= j < i && text.lower(TrimSpace(steps[j].name)) == text.lower(TrimSpace(steps[i].name))
  }

  /** The rules in the order in which they are checked: the header's, then each step's in turn. */
  function Turn(e: Invalid): nat {
    match e
    case NameRequired => 0
    case NameTooLong => 1
    case DescriptionTooLong => 2
    case ParallelismTooHigh => 3
    case NoSteps => 4
    case TooManySteps => 5
    case StepNameRequired(i) => 6 + 6 * i
    case StepNameTooLong(i) => 7 + 6 * i
    case StepNameDuplicated(i) => 8 + 6 * i
    case SqlRequired(i) => 9 + 6 * i
    case SqlTooLong(i) => 10 + 6 * i
    case NotResultProducing(i) => 11 + 6 * i
  }

  ghost predicate NoneBroken(text: Text, steps: seq<Step>) {
    forall f :: !StepBreaks(text, steps, f)
  }

  ghost predicate FirstBroken(text: Text, steps: seq<Step>, e: Invalid) {
    StepBreaks(text, steps, e) && forall f | StepBreaks(text, steps, f) :: Turn(e) <= Turn(f)
  }

  /** What the steps break is what those before the last break, and what the last one breaks. */
  lemma BreaksOneMore(text: Text, front: seq<Step>, last: Step, f: Invalid)
    ensures StepBreaks(text, front, f) ==> StepBreaks(text, front + [last], f)
    ensures StepBreaks(text, front, f) ==> Turn(f) < 6 + 6 * |front|
    ensures StepBreaks(text, front + [last], f) && !StepBreaks(text, front, f) ==> 6 + 6 * |front| <= Turn(f)
  {
    var all := front + [last];
    assert forall i | 0 <= i < |front| :: all[i] == front[i];
    if f.StepNameDuplicated? && f.index < |front| {
      assert SameNameBefore(text, front, f.index) <==> SameNameBefore(text, all, f.index);
    }
  }

  lemma NameSeenBefore(text: Text, front: seq<Step>, last: Step)
    ensures SameNameBefore(text, front + [last], |front|)
      <==> text.lower(TrimSpace(last.name)) in LowerNames(text, NormalSteps(front))
  {
    var all := front + [last];
    assert all[|front|] == last && forall i | 0 <= i < |front| :: all[i] == front[i];
    if j :| 0 <= j < |front| && text.lower(TrimSpace(all[j].name)) == text.lower(TrimSpace(last.name)) {
      assert text.lower(NormalSteps(front)[j].name) in LowerNames(text, NormalSteps(front));
    }
    if text.lower(TrimSpace(last.name)) in LowerNames(text, NormalSteps(front)) {
      var j :| 0 <= j < |front| && text.lower(NormalSteps(front)[j].name) == text.lower(TrimSpace(last.name));
      assert text.lower(TrimSpace(all[j].name)) == text.lower(TrimSpace(all[|front|].name));
    }
  }

  /** The last step's own check, when those before it break no rule. */
  lemma LastBreaks(text: Text, front: seq<Step>, last: Step)
    requires NoneBroken(text, front)
    ensures var r := CheckedStep(text, last, |front|, LowerNames(text, NormalSteps(front)));
      if r.Ok? then NoneBroken(text, front + [last]) else FirstBroken(text, front + [last], r.error)
  {
    var all, r := front + [last], CheckedStep(text, last, |front|, LowerNames(text, NormalSteps(front)));
    assert all[|front|] == last;
    NameSeenBefore(text, front, last);
    forall f | StepBreaks(text, all, f)
      ensures r.Err? && Turn(r.error) <= Turn(f)
    {
      BreaksOneMore(text, front, last, f);
      assert !StepBreaks(text, front, f);
    }
  }

  lemma {:induction false} FirstStepBreach(text: Text, steps: seq<Step>)
    ensures var r := CheckedSteps(text, steps);
      if r.Ok? then NoneBroken(text, steps) else FirstBroken(text, steps, r.error)
  {
    if steps != [] {
      var front, last := steps[..|steps| - 1], steps[|steps| - 1];
      assert steps == front + [last];
      FirstStepBreach(text, front);
      if CheckedSteps(text, front).Ok? {
        CheckedStepsIff(text, front);
        LastBreaks(text, front, last);
      } else {
        BreaksOneMore(text, front, last, CheckedSteps(text, front).error);
        forall f | StepBreaks(text, steps, f)
          ensures Turn(CheckedSteps(text, front).error) <= Turn(f)
        {
          BreaksOneMore(text, front, last, f);
        }
      }
    }
  }

  lemma TurnsDiffer(e: Invalid, f: Invalid)
    ensures Turn(e) == Turn(f) ==> e == f
  {
  }

  /** Validation fails with an error exactly when it names the first rule that the definition breaks. */
  lemma FirstBreachIsReported(text: Text, d: Definition, e: Invalid)
    ensures Validated(text, d) == Err(e)
      <==> Breaks(text, d, e) && forall f | Breaks(text, d, f) :: Turn(e) <= Turn(f)
  {
    FirstStepBreach(text, d.steps);
    var r := Validated(text, d);
    if r.Err? {
      assert Breaks(text, d, r.error);
      forall f | Breaks(text, d, f)
        ensures Turn(r.error) <= Turn(f)
      {
        HeaderFirst(text, d, f);
      }
      TurnsDiffer(e, r.error);
    } else {
      HeaderFirst(text, d, e);
    }
  }

  /** The rules of the header come before those of the steps. */
  lemma HeaderFirst(text: Text, d: Definition, f: Invalid)
    ensures Header(d).Err? && Breaks(text, d, f) ==> Turn(Header(d).error) <= Turn(f)
    ensures Header(d).Ok? && Breaks(text, d, f) ==> StepBreaks(text, d.steps, f)
  {
  }

  /** The normal form trims the texts, runs steps one by one unless told otherwise, and changes nothing else. */
  lemma NormalMeaning(d: Definition)
    ensures var n := Normal(d);
      && n.name == TrimSpace(d.name) && n.description == TrimSpace(d.description)
      && n.maxParallelism >= 1 && (d.maxParallelism >= 1 ==> n.maxParallelism == d.maxParallelism)
      && (d.maxParallelism <= 0 ==> n.maxParallelism == 1)
      && |n.steps| == |d.steps|
      && forall i | 0 <= i < |d.steps| ::
           n.steps[i].name == TrimSpace(d.steps[i].name) && n.steps[i].sql == TrimSpace(d.steps[i].sql)
  {
  }

  method Validate(text: Text, d: Definition) returns (r: Result<Definition, Invalid>)
    ensures r == Validated(text, d)
    ensures r.Ok? <==> Acceptable(text, d)
    ensures r.Ok? ==> r.value == Normal(d)
    ensures r.Err? ==> Breaks(text, d, r.error) && forall f | Breaks(text, d, f) :: Turn(r.error) <= Turn(f)
  {
    ValidatedIff(text, d);
    if Validated(text, d).Err? {
      FirstBreachIsReported(text, d, Validated(text, d).error);
    }
    var header := Header(d);
    if header.Err? {
      return header;
    }
    var steps := ValidateSteps(text, d.steps);
    if steps.Err? {
      return Err(steps.error);
    }
    r := Ok(header.value.(steps := steps.value));
  }

  /** A definition that validation leaves as it is. */
  predicate IsValid(text: Text, d: Definition) {
    Validated(text, d) == Ok(d)
  }

  lemma CheckedStepStays(text: Text, step: Step, index: nat, seen: set<string>)
    requires CheckedStep(text, step, index, seen).Ok?
    ensures var s := CheckedStep(text, step, index, seen).value; CheckedStep(text, s, index, seen) == Ok(s)
  {
    TrimIsTrimmed(step.name);
    TrimIsTrimmed(step.sql);
    TrimmedStays(TrimSpace(step.name));
    TrimmedStays(TrimSpace(step.sql));
  }

  lemma {:induction false} CheckedStepsStay(text: Text, steps: seq<Step>)
    requires CheckedSteps(text, steps).Ok?
    ensures CheckedSteps(text, CheckedSteps(text, steps).value) == CheckedSteps(text, steps)
  {
    if steps != [] {
      var n := |steps| - 1;
      CheckedStepsStay(text, steps[..n]);
      var front := CheckedSteps(text, steps[..n]).value;
      CheckedStepStays(text, steps[n], n, LowerNames(text, front));
      var all := CheckedSteps(text, steps).value;
      assert all[..n] == front;
    }
  }

  /** Validating twice is validating once: what was accepted is accepted unchanged. */
  lemma ValidationIdempotent(text: Text, d: Definition)
    requires Validated(text, d).Ok?
    ensures IsValid(text, Validated(text, d).value)
  {
    var v := Validated(text, d).value;
    TrimIsTrimmed(d.name);
    TrimIsTrimmed(d.description);
    TrimmedStays(v.name);
    TrimmedStays(v.description);
    CheckedStepsStay(text, d.steps);
    assert Header(v) == Ok(v);
  }

  lemma ValidNameIsTrimmed(text: Text, d: Definition)
    requires IsValid(text, d)
    ensures TrimSpace(d.name) == d.name && d.name != "" && d.maxParallelism >= 1
  {
  }
}
