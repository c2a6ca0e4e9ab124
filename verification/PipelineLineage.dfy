/** What the executor returns: one lineage entry per step, and an error exactly when something went wrong. */
module PipelineLineage {
  import opened Wrappers
  import opened PipelineExecutor

  datatype Entry = Ran(step: nat, outcome: Outcome) | Skipped(step: nat, reason: RunError)

  function Lineage(completed: seq<Option<Outcome>>, firstErr: Option<RunError>): seq<Entry> {
    if completed == [] then []
    else
      var i := |completed| - 1;
      Lineage(completed[..i], firstErr) +
      match completed[i]
      case Some(o) => [Ran(i, o)]
      case None => if firstErr.Some? then [Skipped(i, firstErr.value)] else []
  }

  method AssembleLineage(completed: seq<Option<Outcome>>, firstErr: Option<RunError>) returns (lineage: seq<Entry>)
    ensures lineage == Lineage(completed, firstErr)
  {
    lineage := [];
    for i := 0 to |completed|
      invariant lineage == Lineage(completed[..i], firstErr)
    {
      assert completed[..i + 1][..i] == completed[..i];
      if completed[i].Some? {
        lineage := lineage + [Ran(i, completed[i].value)];
      } else if firstErr.Some? {
        lineage := lineage + [Skipped(i, firstErr.value)];
      }
    }
    assert completed[..|completed|] == completed;
  }

  lemma {:induction false} LineageEntries(completed: seq<Option<Outcome>>, firstErr: Option<RunError>)
    requires firstErr.Some? || forall i | 0 <= i < |completed| :: completed[i].Some?
    ensures var lineage := Lineage(completed, firstErr);
      && |lineage| == |completed|
      && forall i | 0 <= i < |completed| ::
           lineage[i] == match completed[i]
                         case Some(o) => Ran(i, o)
                         case None => Skipped(i, firstErr.value)
  {
    if completed != [] {
      LineageEntries(completed[..|completed| - 1], firstErr);
    }
  }

  /** Once the results are drained, what was handed over is what has completed. */
  lemma DrainedMeansCompleted(c: Config, s: State)
    requires Conserved(c, s) && s.results == [] && forall i | 0 <= i < |s.workers| :: s.workers[i].Exited?
    ensures forall i | 0 <= i < c.steps :: s.completed[i].Some? <==> i < s.fed
  {
    forall i: nat | i < c.steps
      ensures s.completed[i].Some? <==> i < s.fed
    {
      NobodyWorking(s.workers, i);
      assert Placed(s, i);
    }
  }

  /**
   Every interleaving returns one entry per step in definition order: those that ran form a prefix,
   and the error is absent exactly when every step ran and succeeded before the caller gave up.
   */
  lemma ReturnedLineage(c: Config, events: seq<Event>)
    requires Run(c, events).Some? && Run(c, events).value.returned
    ensures var s := Run(c, events).value;
      var lineage := Lineage(s.completed, s.firstErr);
      && |lineage| == c.steps && s.fed <= c.steps
      && (forall i | 0 <= i < c.steps :: lineage[i].step == i && (lineage[i].Ran? <==> i < s.fed))
      && (forall i | s.fed <= i < c.steps :: s.firstErr == Some(lineage[i].reason))
      && (s.firstErr.None? <==>
            !s.parentDone && s.fed == c.steps && forall i | 0 <= i < c.steps :: lineage[i] == Ran(i, Succeeded))
      && (s.firstErr == Some(ContextDone) ==>
            s.parentDone && forall i | 0 <= i < s.fed :: lineage[i] == Ran(i, Succeeded))
      && (s.firstErr.Some? && s.firstErr.value.StepFailed? ==>
            var StepFailed(k, error) := s.firstErr.value; k < s.fed && lineage[k] == Ran(k, Failed(error)))
  {
    var s := Run(c, events).value;
    EveryRunKeeps(c, events);
    DrainedMeansCompleted(c, s);
    if s.firstErr.None? {
      assert s.workers[0].Exited?;
    }
    LineageEntries(s.completed, s.firstErr);
  }

  // ---- Which failure is returned ----

  datatype Failure = Failure(step: nat, error: string)

  /** The failures that the collector takes from the results in a run, in that order. */
  function Failures(c: Config, events: seq<Event>): seq<Failure> {
    if events == [] then []
    else
      var rest, e := events[..|events| - 1], events[|events| - 1];
      Failures(c, rest) +
      (if e.Collect? && Run(c, rest).Some? && Run(c, rest).value.results != []
       then FailureOf(Run(c, rest).value.results[0]) else [])
  }

  function FailureOf(r: Completion): seq<Failure> {
    match r.outcome
    case Succeeded => []
    case Failed(error) => [Failure(r.step, error)]
  }

  /** The error a run has come to, given the failures collected in it. */
  function ErrorOf(failures: seq<Failure>, gaveUp: bool): Option<RunError> {
    if failures != [] then Some(StepFailed(failures[0].step, failures[0].error))
    else if gaveUp then Some(ContextDone)
    else None
  }

  lemma OneMoreFailure(c: Config, s: State, e: Event, failures: seq<Failure>)
    requires Enabled(c, s, e) && (s.returned ==> s.results == [])
    requires s.firstErr == ErrorOf(failures, s.returned && s.parentDone)
    ensures var more := if e.Collect? && s.results != [] then FailureOf(s.results[0]) else [];
      var t := Next(c, s, e);
      t.firstErr == ErrorOf(failures + more, t.returned && t.parentDone)
  {
    if e.Collect? {
      OneMoreCollected(c, s, failures);
    } else {
      assert failures + [] == failures;
    }
  }

  lemma OneMoreCollected(c: Config, s: State, failures: seq<Failure>)
    requires Enabled(c, s, Collect) && s.firstErr == ErrorOf(failures, false)
    ensures Next(c, s, Collect).firstErr == ErrorOf(failures + FailureOf(s.results[0]), false)
  {
    if s.results[0].outcome.Succeeded? {
      assert failures + [] == failures;
    }
  }

  /**
   The error returned is that of the failure collected first, whatever fails after it; without a failure
   it says that the caller gave up, if so, and else there is none.
   */
  lemma {:induction false} FirstFailureIsReturned(c: Config, events: seq<Event>)
    requires Run(c, events).Some?
    ensures var s, failures := Run(c, events).value, Failures(c, events);
      s.firstErr == if failures != [] then Some(StepFailed(failures[0].step, failures[0].error))
                    else if s.returned && s.parentDone then Some(ContextDone)
                    else None
  {
    if events != [] {
      var rest, e := events[..|events| - 1], events[|events| - 1];
      FirstFailureIsReturned(c, rest);
      EveryRunKeeps(c, rest);
      OneMoreFailure(c, Run(c, rest).value, e, Failures(c, rest));
    }
  }
}
