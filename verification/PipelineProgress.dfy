/** The executor neither blocks nor runs for ever. */
module PipelineProgress {
  import opened Wrappers
  import opened PipelineExecutor

  lemma {:induction false} BusyIsCounted(ws: seq<Worker>, w: nat)
    requires w < |ws| && Busy(ws[w])
    ensures BusyCount(ws) > 0 && InWorkers(ws, ws[w].step) > 0
  {
    if w > 0 {
      BusyIsCounted(ws[1..], w - 1);
    }
  }

  /** A worker that wants to report always finds room on the channel. */
  lemma SendNeverBlocks(c: Config, s: State, w: nat)
    requires Conserved(c, s) && w < |s.workers| && s.workers[w].Reporting?
    ensures Enabled(c, s, Send(w))
  {
    BusyIsCounted(s.workers, w);
  }

  lemma ResultsAreInRange(c: Config, s: State)
    requires Conserved(c, s) && s.results != []
    ensures s.results[0].step < s.fed
  {
    assert Placed(s, s.results[0].step);
  }

  /** Until the executor returns, something other than the caller can move. */
  lemma NeverStuck(c: Config, s: State) returns (e: Event)
    requires Conserved(c, s) && Consistent(c, s) && !s.returned
    ensures Enabled(c, s, e) && !e.ParentDone?
  {
    if s.results != [] {
      ResultsAreInRange(c, s);
      return Collect;
    }
    if w: nat :| w < |s.workers| && s.workers[w].Reporting? {
      SendNeverBlocks(c, s, w);
      return Send(w);
    }
    if w: nat :| w < |s.workers| && s.workers[w].Executing? {
      return Finish(w, Succeeded);
    }
    if w: nat :| w < |s.workers| && s.workers[w].Waiting? {
      return if s.cancelled then LeaveCancelled(w)
             else if s.jobsClosed then LeaveClosed(w)
             else if s.fed < c.steps then HandOver(w)
             else FinishFeeding;
    }
    return if s.resultsClosed then Return else CloseResults;
  }

  function Work(w: Worker): nat {
    match w
    case Waiting => 1
    case Executing(_) => 5
    case Reporting(_, _) => 4
    case Exited => 0
  }

  function AllWork(ws: seq<Worker>): nat {
    if ws == [] then 0 else Work(ws[0]) + AllWork(ws[1..])
  }

  lemma {:induction false} ChangeWork(ws: seq<Worker>, i: nat, w: Worker)
    requires i < |ws|
    ensures AllWork(ws[i := w]) + Work(ws[i]) == AllWork(ws) + Work(w)
  {
    if i == 0 {
      assert ws[i := w][1..] == ws[1..];
    } else {
      assert ws[i := w][1..] == ws[1..][i - 1 := w];
      ChangeWork(ws[1..], i - 1, w);
    }
  }

  function Measure(c: Config, s: State): nat {
    5 * (if s.fed < c.steps then c.steps - s.fed else 0)
    + AllWork(s.workers) + |s.results|
    + (if s.jobsClosed then 0 else 1) + (if s.resultsClosed then 0 else 1)
    + (if s.parentDone then 0 else 1) + (if s.returned then 0 else 1)
  }

  lemma EveryEventCounts(c: Config, s: State, e: Event)
    requires Enabled(c, s, e)
    ensures Measure(c, Next(c, s, e)) < Measure(c, s)
  {
    if e.HandOver? || e.LeaveCancelled? || e.LeaveClosed? || e.Finish? || e.Send? {
      ChangeWork(s.workers, e.w, Next(c, s, e).workers[e.w]);
    }
  }

  /** No interleaving is longer than what the initial state allows. */
  lemma {:induction false} RunsAreBounded(c: Config, events: seq<Event>)
    requires Run(c, events).Some?
    ensures |events| + Measure(c, Run(c, events).value) <= Measure(c, Init(c))
  {
    if events != [] {
      var rest := events[..|events| - 1];
      RunsAreBounded(c, rest);
      EveryEventCounts(c, Run(c, rest).value, events[|events| - 1]);
    }
  }

  lemma OneMoreEvent(c: Config, events: seq<Event>, s: State, e: Event)
    requires Run(c, events) == Some(s) && Enabled(c, s, e)
    ensures Run(c, events + [e]) == Some(Next(c, s, e))
  {
    assert (events + [e])[..|events|] == events;
  }

  lemma OneStepFurther(c: Config, events: seq<Event>) returns (e: Event)
    requires Run(c, events).Some? && !Run(c, events).value.returned
    ensures !e.ParentDone? && Run(c, events + [e]).Some?
    ensures Measure(c, Run(c, events + [e]).value) < Measure(c, Run(c, events).value)
  {
    var s := Run(c, events).value;
    EveryRunKeeps(c, events);
    e := NeverStuck(c, s);
    EveryEventCounts(c, s, e);
    OneMoreEvent(c, events, s, e);
  }

  /** The run can be completed by these events, none of them the caller's. */
  ghost predicate Completes(c: Config, events: seq<Event>, more: seq<Event>) {
    && Run(c, events + more).Some? && Run(c, events + more).value.returned
    && forall e | e in more :: !e.ParentDone?
  }

  lemma CompletesEarlier(c: Config, events: seq<Event>, e: Event, rest: seq<Event>)
    requires !e.ParentDone? && Completes(c, events + [e], rest)
    ensures Completes(c, events, [e] + rest)
  {
    assert events + ([e] + rest) == (events + [e]) + rest;
  }

  /** Every run can be completed, and without any help from the caller. */
  lemma {:induction false} EveryRunCanReturn(c: Config, events: seq<Event>) returns (more: seq<Event>)
    requires Run(c, events).Some?
    ensures Completes(c, events, more)
    decreases Measure(c, Run(c, events).value)
  {
    if Run(c, events).value.returned {
      more := [];
      assert events + [] == events;
    } else {
      var e := OneStepFurther(c, events);
      var rest := EveryRunCanReturn(c, events + [e]);
      CompletesEarlier(c, events, e, rest);
      more := [e] + rest;
    }
  }
}
