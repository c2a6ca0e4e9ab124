/** How far a run may get after a step has failed. */
module PipelineFailure {
  import opened Wrappers
  import opened PipelineExecutor
  import opened PipelineProgress

  function OutcomeOf(k: nat, error: string, i: nat): Outcome {
    if i == k then Failed(error) else Succeeded
  }

  function Reports(k: nat, error: string, n: nat): seq<Completion> {
    seq(n, i requires 0 <= i < n => Completion(i, OutcomeOf(k, error, i)))
  }

  function Completed(c: Config, k: nat, error: string, n: nat): seq<Option<Outcome>> {
    seq(c.steps, i requires 0 <= i < c.steps => if i < n then Some(OutcomeOf(k, error, i)) else None)
  }

  /** The first n workers have left, the others wait. */
  function Team(c: Config, gone: nat): seq<Worker> {
    seq(c.Workers(), i requires 0 <= i < c.Workers() => if i < gone then Exited else Waiting)
  }

  /** n steps have run, one after the other, and none has been collected. */
  function Uncollected(c: Config, k: nat, error: string, n: nat): State {
    State(n, false, Team(c, 0), Reports(k, error, n), false, Completed(c, k, error, 0), None, false, false, false)
  }

  /** Of m steps that have run, j have been collected. */
  function Collected(c: Config, k: nat, error: string, m: nat, j: nat): State
    requires j <= m
  {
    State(m, false, Team(c, 0), Reports(k, error, m)[j..], false, Completed(c, k, error, j),
          if j > k then Some(StepFailed(k, error)) else None, j > k, false, false)
  }

  /** Everything is collected, the feeder has stopped, and some workers have left. */
  function Leaving(c: Config, k: nat, error: string, m: nat, gone: nat): State {
    State(m, true, Team(c, gone), [], false, Completed(c, k, error, m), Some(StepFailed(k, error)), true, false, false)
  }

  lemma Then(c: Config, events: seq<Event>, s: State, e: Event, t: State) returns (longer: seq<Event>)
    requires Run(c, events) == Some(s) && Enabled(c, s, e) && t == Next(c, s, e)
    ensures Run(c, longer) == Some(t)
  {
    longer := events + [e];
    OneMoreEvent(c, events, s, e);
  }

  function Handed(c: Config, k: nat, error: string, n: nat): State {
    Uncollected(c, k, error, n).(fed := n + 1, workers := Team(c, 0)[0 := Executing(n)])
  }

  function Ended(c: Config, k: nat, error: string, n: nat): State {
    Handed(c, k, error, n).(workers := Team(c, 0)[0 := Reporting(n, OutcomeOf(k, error, n))])
  }

  lemma Hands(c: Config, k: nat, error: string, n: nat)
    requires n < c.steps
    ensures Enabled(c, Uncollected(c, k, error, n), HandOver(0))
    ensures Next(c, Uncollected(c, k, error, n), HandOver(0)) == Handed(c, k, error, n)
  {
  }

  lemma Ends(c: Config, k: nat, error: string, n: nat)
    requires n < c.steps
    ensures Enabled(c, Handed(c, k, error, n), Finish(0, OutcomeOf(k, error, n)))
    ensures Next(c, Handed(c, k, error, n), Finish(0, OutcomeOf(k, error, n))) == Ended(c, k, error, n)
  {
  }

  lemma Sends(c: Config, k: nat, error: string, n: nat)
    requires n < c.steps
    ensures Enabled(c, Ended(c, k, error, n), Send(0))
    ensures Next(c, Ended(c, k, error, n), Send(0)) == Uncollected(c, k, error, n + 1)
  {
    assert Ended(c, k, error, n).workers[0 := Waiting] == Team(c, 0);
    assert Reports(k, error, n + 1) == Reports(k, error, n) + [Completion(n, OutcomeOf(k, error, n))];
  }

  /** One worker takes, runs and reports the next step. */
  lemma OneMoreRuns(c: Config, k: nat, error: string, n: nat, events: seq<Event>) returns (longer: seq<Event>)
    requires n < c.steps && Run(c, events) == Some(Uncollected(c, k, error, n))
    ensures Run(c, longer) == Some(Uncollected(c, k, error, n + 1))
  {
    Hands(c, k, error, n);
    longer := Then(c, events, Uncollected(c, k, error, n), HandOver(0), Handed(c, k, error, n));
    Ends(c, k, error, n);
    longer := Then(c, longer, Handed(c, k, error, n), Finish(0, OutcomeOf(k, error, n)), Ended(c, k, error, n));
    Sends(c, k, error, n);
    longer := Then(c, longer, Ended(c, k, error, n), Send(0), Uncollected(c, k, error, n + 1));
  }

  lemma {:induction false} SomeRun(c: Config, k: nat, error: string, n: nat) returns (events: seq<Event>)
    requires n <= c.steps
    ensures Run(c, events) == Some(Uncollected(c, k, error, n))
  {
    if n == 0 {
      events := [];
      assert Init(c).completed == Completed(c, k, error, 0) && Init(c).workers == Team(c, 0);
      assert Reports(k, error, 0) == [];
    } else {
      events := SomeRun(c, k, error, n - 1);
      events := OneMoreRuns(c, k, error, n - 1, events);
    }
  }

  lemma OneMoreIsCollected(c: Config, k: nat, error: string, m: nat, j: nat, events: seq<Event>) returns (longer: seq<Event>)
    requires j < m <= c.steps && Run(c, events) == Some(Collected(c, k, error, m, j))
    ensures Run(c, longer) == Some(Collected(c, k, error, m, j + 1))
  {
    var s := Collected(c, k, error, m, j);
    assert s.results[0] == Completion(j, OutcomeOf(k, error, j)) && s.results[1..] == Reports(k, error, m)[j + 1..];
    assert Completed(c, k, error, j + 1) == s.completed[j := Some(OutcomeOf(k, error, j))];
    longer := Then(c, events, s, Collect, Collected(c, k, error, m, j + 1));
  }

  lemma NoneIsCollected(c: Config, k: nat, error: string, m: nat)
    ensures Collected(c, k, error, m, 0) == Uncollected(c, k, error, m)
  {
    assert Reports(k, error, m)[0..] == Reports(k, error, m);
  }

  lemma {:induction false} SomeAreCollected(c: Config, k: nat, error: string, m: nat, j: nat) returns (events: seq<Event>)
    requires j <= m <= c.steps
    ensures Run(c, events) == Some(Collected(c, k, error, m, j))
  {
    if j == 0 {
      events := SomeRun(c, k, error, m);
      NoneIsCollected(c, k, error, m);
    } else {
      events := SomeAreCollected(c, k, error, m, j - 1);
      events := OneMoreIsCollected(c, k, error, m, j - 1, events);
    }
  }

  lemma {:induction false} SomeLeave(c: Config, k: nat, error: string, m: nat, gone: nat) returns (events: seq<Event>)
    requires k < m <= c.steps && gone <= c.Workers()
    ensures Run(c, events) == Some(Leaving(c, k, error, m, gone))
  {
    if gone == 0 {
      events := SomeAreCollected(c, k, error, m, m);
      events := Then(c, events, Collected(c, k, error, m, m), if m < c.steps then StopFeeding else FinishFeeding,
                     Leaving(c, k, error, m, 0));
    } else {
      events := SomeLeave(c, k, error, m, gone - 1);
      assert Team(c, gone) == Team(c, gone - 1)[gone - 1 := Exited];
      events := Then(c, events, Leaving(c, k, error, m, gone - 1), LeaveCancelled(gone - 1), Leaving(c, k, error, m, gone));
    }
  }

  /** A run in which exactly the first m steps run although the k-th of them fails. */
  lemma FailingRun(c: Config, k: nat, error: string, m: nat) returns (events: seq<Event>)
    requires k < m <= c.steps
    ensures Run(c, events) == Some(Leaving(c, k, error, m, c.Workers()).(resultsClosed := true, returned := true))
  {
    var s := Leaving(c, k, error, m, c.Workers());
    var closed := s.(resultsClosed := true);
    events := SomeLeave(c, k, error, m, c.Workers());
    events := Then(c, events, s, CloseResults, closed);
    events := Then(c, events, closed, Return, closed.(returned := true));
  }

  /** The run returns the failure of step k, and exactly the first m steps have run. */
  ghost predicate FailsAfter(c: Config, events: seq<Event>, k: nat, error: string, m: nat) {
    Run(c, events).Some? &&
    var s := Run(c, events).value;
    && s.returned && s.firstErr == Some(StepFailed(k, error)) && s.fed == m
    && (forall i | 0 <= i < |s.completed| :: s.completed[i].Some? <==> i < m)
  }

  /**
   Whatever the parallelism, a run that reports the failure of step k may end after any number of
   steps from k + 1 to all of them, and after no other.
   */
  lemma FailsAfterIff(c: Config, k: nat, error: string, m: nat)
    ensures (exists events :: FailsAfter(c, events, k, error, m)) <==> k < m <= c.steps
  {
    if k < m <= c.steps {
      var events := FailingRun(c, k, error, m);
      assert FailsAfter(c, events, k, error, m);
    }
    forall events | FailsAfter(c, events, k, error, m)
      ensures k < m <= c.steps
    {
      EveryRunKeeps(c, events);
    }
  }

  /** The run returns the failure of step k, but step j has run too. */
  ghost predicate RunsOn(c: Config, events: seq<Event>, k: nat, error: string, j: nat) {
    Run(c, events).Some? &&
    var s := Run(c, events).value;
    s.returned && s.firstErr == Some(StepFailed(k, error)) && k < j < |s.completed| && s.completed[j].Some?
  }

  /** A failure certainly stops the rest exactly when it is the last step's, even with one worker. */
  lemma LaterStepMayRunIff(c: Config, k: nat, error: string)
    ensures (exists events, j :: RunsOn(c, events, k, error, j)) <==> k + 1 < c.steps
  {
    if k + 1 < c.steps {
      var events := FailingRun(c, k, error, k + 2);
      assert RunsOn(c, events, k, error, k + 1);
    }
    forall events, j | RunsOn(c, events, k, error, j)
      ensures k + 1 < c.steps
    {
      EveryRunKeeps(c, events);
    }
  }

  /** Step j is handed over although the failure of step k has been collected and the run cancelled. */
  ghost predicate StartsLate(c: Config, events: seq<Event>, w: nat, k: nat, error: string, j: nat) {
    && Run(c, events).Some? && Run(c, events + [HandOver(w)]).Some?
    && var s := Run(c, events).value; s.cancelled && s.firstErr == Some(StepFailed(k, error)) && s.fed == j
  }

  /** The cancellation does not keep a waiting worker from taking a step on offer: any later step may start after it. */
  lemma StartsLateIff(c: Config, k: nat, error: string, j: nat)
    ensures (exists events, w :: StartsLate(c, events, w, k, error, j)) <==> k < j < c.steps
  {
    if k < j < c.steps {
      var s := Collected(c, k, error, j, j);
      var events := SomeAreCollected(c, k, error, j, j);
      OneMoreEvent(c, events, s, HandOver(0));
      assert StartsLate(c, events, 0, k, error, j);
    }
    forall events, w | StartsLate(c, events, w, k, error, j)
      ensures k < j < c.steps
    {
      var s := Run(c, events).value;
      EveryRunKeeps(c, events);
      assert Placed(s, k);
      assert (events + [HandOver(w)])[..|events|] == events;
    }
  }

  /** An instance: with one worker, the step after a failing one still runs. */
  lemma FailureMayNotStopTheNextStep(error: string) returns (events: seq<Event>)
    ensures Run(Config(2, 1), events).Some?
    ensures var s := Run(Config(2, 1), events).value;
      && s.returned && s.firstErr == Some(StepFailed(0, error))
      && s.completed == [Some(Failed(error)), Some(Succeeded)]
  {
    events := FailingRun(Config(2, 1), 0, error, 2);
  }
}
