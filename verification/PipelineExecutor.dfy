/**
 The pipeline executor as a transition system: a feeder offering steps over an unbuffered channel,
 a bounded set of workers, a results channel with room for every step, a collector, a goroutine
 that closes the results, and a cancellable context below the caller's own. Every event is one
 atomic action of one of them; any enabled event may come next.
 */
module PipelineExecutor {
  import opened Wrappers

  datatype Outcome = Succeeded | Failed(error: string)

  datatype Worker = Waiting | Executing(step: nat) | Reporting(step: nat, outcome: Outcome) | Exited

  datatype Completion = Completion(step: nat, outcome: Outcome)

  datatype RunError = StepFailed(step: nat, error: string) | ContextDone

  datatype Config = Config(steps: nat, maxParallelism: int) {
    function Workers(): (n: nat)
      ensures n >= 1
      ensures n <= steps || n == 1
      ensures n <= maxParallelism || n == 1
    {
      var n := if maxParallelism > steps then steps else maxParallelism;
      if n < 1 then 1 else n
    }
  }

  /** `fed` steps have been handed over; `results` is the channel's buffer. */
  datatype State = State(
    fed: nat, jobsClosed: bool,
    workers: seq<Worker>,
    results: seq<Completion>, resultsClosed: bool,
    completed: seq<Option<Outcome>>, firstErr: Option<RunError>,
    cancelled: bool, parentDone: bool, returned: bool)

  datatype Event =
    | HandOver(w: nat)                    // feeder and an idle worker meet on the jobs channel
    | StopFeeding                         // feeder sees the cancellation
    | FinishFeeding                       // feeder has offered every step
    | LeaveCancelled(w: nat)              // idle worker sees the cancellation
    | LeaveClosed(w: nat)                 // idle worker sees the closed jobs channel
    | Finish(w: nat, outcome: Outcome)    // a step's statement ends
    | Send(w: nat)                        // worker reports on the results channel
    | CloseResults                        // every worker has left
    | Collect                             // collector takes one result
    | ParentDone                          // the caller's context ends
    | Return                              // results drained and closed

  function Init(c: Config): State {
    State(0, false, seq(c.Workers(), i => Waiting), [], false, seq(c.steps, i => None), None, false, false, false)
  }

  predicate Enabled(c: Config, s: State, e: Event) {
    match e
    case HandOver(w) => !s.jobsClosed && s.fed < c.steps && w < |s.workers| && s.workers[w].Waiting?
    case StopFeeding => !s.jobsClosed && s.fed < c.steps && s.cancelled
    case FinishFeeding => !s.jobsClosed && s.fed == c.steps
    case LeaveCancelled(w) => w < |s.workers| && s.workers[w].Waiting? && s.cancelled
    case LeaveClosed(w) => w < |s.workers| && s.workers[w].Waiting? && s.jobsClosed
    case Finish(w, _) => w < |s.workers| && s.workers[w].Executing?
    case Send(w) => w < |s.workers| && s.workers[w].Reporting? && |s.results| < c.steps
    case CloseResults => !s.resultsClosed && forall i | 0 <= i < |s.workers| :: s.workers[i].Exited?
    case Collect => !s.returned && s.results != [] && s.results[0].step < |s.completed|
    case ParentDone => !s.parentDone && !s.returned
    case Return => !s.returned && s.results == [] && s.resultsClosed
  }

  function Next(c: Config, s: State, e: Event): State
    requires Enabled(c, s, e)
  {
    match e
    case HandOver(w) => s.(workers := s.workers[w := Executing(s.fed)], fed := s.fed + 1)
    case StopFeeding => s.(jobsClosed := true)
    case FinishFeeding => s.(jobsClosed := true)
    case LeaveCancelled(w) => s.(workers := s.workers[w := Exited])
    case LeaveClosed(w) => s.(workers := s.workers[w := Exited])
    case Finish(w, outcome) => s.(workers := s.workers[w := Reporting(s.workers[w].step, outcome)])
    case Send(w) =>
      s.(workers := s.workers[w := Waiting],
         results := s.results + [Completion(s.workers[w].step, s.workers[w].outcome)])
    case CloseResults => s.(resultsClosed := true)
    case Collect =>
      var r := s.results[0];
      var fails := r.outcome.Failed? && s.firstErr.None?;
      s.(results := s.results[1..],
         completed := s.completed[r.step := Some(r.outcome)],
         firstErr := if fails then Some(StepFailed(r.step, r.outcome.error)) else s.firstErr,
         cancelled := s.cancelled || fails)
    case ParentDone => s.(parentDone := true, cancelled := true)
    case Return =>
      s.(returned := true,
         firstErr := if s.firstErr.None? && s.parentDone then Some(ContextDone) else s.firstErr)
  }

  /** The state after a run, or None if some event was not possible when its turn came. */
  function Run(c: Config, events: seq<Event>): Option<State> {
    if events == [] then Some(Init(c))
    else
      var before := Run(c, events[..|events| - 1]);
      var e := events[|events| - 1];
      if before.Some? && Enabled(c, before.value, e) then Some(Next(c, before.value, e)) else None
  }

  // ---- Where the steps are ----

  predicate Holds(w: Worker, step: nat) {
    match w
    case Executing(i) => i == step
    case Reporting(i, _) => i == step
    case _ => false
  }

  predicate Busy(w: Worker) {
    w.Executing? || w.Reporting?
  }

  function InWorkers(ws: seq<Worker>, step: nat): nat {
    if ws == [] then 0 else (if Holds(ws[0], step) then 1 else 0) + InWorkers(ws[1..], step)
  }

  function InResults(rs: seq<Completion>, step: nat): nat {
    if rs == [] then 0 else (if rs[0].step == step then 1 else 0) + InResults(rs[1..], step)
  }

  function InCompleted(cs: seq<Option<Outcome>>, step: nat): nat {
    if step < |cs| && cs[step].Some? then 1 else 0
  }

  function BusyCount(ws: seq<Worker>): (n: nat)
    ensures n <= |ws|
  {
    if ws == [] then 0 else (if Busy(ws[0]) then 1 else 0) + BusyCount(ws[1..])
  }

  function DoneCount(cs: seq<Option<Outcome>>): nat {
    if cs == [] then 0 else DoneCount(cs[..|cs| - 1]) + (if cs[|cs| - 1].Some? then 1 else 0)
  }

  lemma {:induction false} ChangeWorker(ws: seq<Worker>, i: nat, w: Worker, step: nat)
    requires i < |ws|
    ensures InWorkers(ws[i := w], step) + (if Holds(ws[i], step) then 1 else 0)
         == InWorkers(ws, step) + (if Holds(w, step) then 1 else 0)
  {
    if i == 0 {
      assert ws[i := w][1..] == ws[1..];
    } else {
      assert ws[i := w][1..] == ws[1..][i - 1 := w];
      ChangeWorker(ws[1..], i - 1, w, step);
    }
  }

  lemma {:induction false} ChangeBusy(ws: seq<Worker>, i: nat, w: Worker)
    requires i < |ws|
    ensures BusyCount(ws[i := w]) + (if Busy(ws[i]) then 1 else 0) == BusyCount(ws) + (if Busy(w) then 1 else 0)
  {
    if i == 0 {
      assert ws[i := w][1..] == ws[1..];
    } else {
      assert ws[i := w][1..] == ws[1..][i - 1 := w];
      ChangeBusy(ws[1..], i - 1, w);
    }
  }

  lemma {:induction false} AddResult(rs: seq<Completion>, r: Completion, step: nat)
    ensures InResults(rs + [r], step) == InResults(rs, step) + (if r.step == step then 1 else 0)
  {
    if rs == [] {
      assert rs + [r] == [r];
    } else {
      assert (rs + [r])[1..] == rs[1..] + [r];
      AddResult(rs[1..], r, step);
    }
  }

  lemma {:induction false} Complete(cs: seq<Option<Outcome>>, i: nat, o: Outcome)
    requires i < |cs| && cs[i].None?
    ensures DoneCount(cs[i := Some(o)]) == DoneCount(cs) + 1
  {
    var n := |cs| - 1;
    if i == n {
      assert cs[i := Some(o)][..n] == cs[..n];
    } else {
      assert cs[i := Some(o)][..n] == cs[..n][i := Some(o)];
      Complete(cs[..n], i, o);
    }
  }

  lemma {:induction false} NothingCompleted(cs: seq<Option<Outcome>>)
    requires forall i | 0 <= i < |cs| :: cs[i].None?
    ensures DoneCount(cs) == 0
  {
    if cs != [] {
      NothingCompleted(cs[..|cs| - 1]);
    }
  }

  lemma {:induction false} NobodyWorking(ws: seq<Worker>, step: nat)
    requires forall i | 0 <= i < |ws| :: !Busy(ws[i])
    ensures InWorkers(ws, step) == 0 && BusyCount(ws) == 0
  {
    if ws != [] {
      NobodyWorking(ws[1..], step);
    }
  }

  /** Every step handed over is in exactly one place: with a worker, on the channel, or completed. */
  ghost predicate Conserved(c: Config, s: State) {
    && s.fed <= c.steps && |s.workers| == c.Workers() && |s.completed| == c.steps
    && BusyCount(s.workers) + |s.results| + DoneCount(s.completed) == s.fed
    && forall i: nat :: Placed(s, i)
  }

  ghost predicate Placed(s: State, i: nat) {
    InWorkers(s.workers, i) + InResults(s.results, i) + InCompleted(s.completed, i) == if i < s.fed then 1 else 0
  }

  /** What the cancellation flag, the first error and the closed channels mean. */
  ghost predicate Consistent(c: Config, s: State) {
    && (s.parentDone ==> s.cancelled)
    && (s.cancelled ==> s.parentDone || s.firstErr.Some?)
    && (s.jobsClosed && s.fed < c.steps ==> s.cancelled)
    && (forall i | 0 <= i < |s.workers| && s.workers[i].Exited? :: s.jobsClosed || s.cancelled)
    && (s.resultsClosed ==> forall i | 0 <= i < |s.workers| :: s.workers[i].Exited?)
    && (s.returned ==> s.resultsClosed && s.results == [])
    && match s.firstErr
       case None =>
         && (s.returned ==> !s.parentDone)
         && (forall i | 0 <= i < |s.completed| && s.completed[i].Some? :: s.completed[i].value.Succeeded?)
       case Some(ContextDone) =>
         && s.returned && s.parentDone
         && (forall i | 0 <= i < |s.completed| && s.completed[i].Some? :: s.completed[i].value.Succeeded?)
       case Some(StepFailed(step, error)) =>
         && s.cancelled && step < |s.completed| && s.completed[step] == Some(Failed(error))
  }

  lemma InitHolds(c: Config)
    ensures Conserved(c, Init(c)) && Consistent(c, Init(c))
  {
    var s := Init(c);
    NothingCompleted(s.completed);
    forall i: nat
      ensures Placed(s, i) && BusyCount(s.workers) == 0
    {
      NobodyWorking(s.workers, i);
    }
    NobodyWorking(s.workers, 0);
  }

  /** A worker takes the step on offer, keeps the one it has, or gives it up to the channel. */
  lemma WorkerConserves(c: Config, s: State, e: Event)
    requires Conserved(c, s) && Enabled(c, s, e)
    requires e.HandOver? || e.LeaveCancelled? || e.LeaveClosed? || e.Finish? || e.Send?
    ensures Conserved(c, Next(c, s, e))
  {
    var t := Next(c, s, e);
    ChangeBusy(s.workers, e.w, t.workers[e.w]);
    forall i: nat
      ensures Placed(t, i)
    {
      assert Placed(s, i);
      ChangeWorker(s.workers, e.w, t.workers[e.w], i);
      if e.Send? {
        AddResult(s.results, t.results[|s.results|], i);
      }
    }
  }

  lemma CollectConserves(c: Config, s: State)
    requires Conserved(c, s) && Enabled(c, s, Collect)
    ensures s.completed[s.results[0].step].None?
    ensures Conserved(c, Next(c, s, Collect))
  {
    var r := s.results[0];
    var t := Next(c, s, Collect);
    assert Placed(s, r.step);
    Complete(s.completed, r.step, r.outcome);
    forall i: nat
      ensures Placed(t, i)
    {
      assert Placed(s, i);
    }
  }

  lemma StepConserves(c: Config, s: State, e: Event)
    requires Conserved(c, s) && Enabled(c, s, e)
    ensures Conserved(c, Next(c, s, e))
  {
    if e.HandOver? || e.LeaveCancelled? || e.LeaveClosed? || e.Finish? || e.Send? {
      WorkerConserves(c, s, e);
    } else if e.Collect? {
      CollectConserves(c, s);
    } else {
      forall i: nat
        ensures Placed(Next(c, s, e), i)
      {
        assert Placed(s, i);
      }
    }
  }

  lemma StepConsistent(c: Config, s: State, e: Event)
    requires Conserved(c, s) && Consistent(c, s) && Enabled(c, s, e)
    ensures Consistent(c, Next(c, s, e))
  {
    if e.HandOver? || e.LeaveCancelled? || e.LeaveClosed? || e.Finish? || e.Send? {
      assert !s.workers[e.w].Exited?;
    } else if e.Collect? {
      CollectConserves(c, s);
    }
  }

  /** Both invariants hold in every interleaving. */
  lemma {:induction false} EveryRunKeeps(c: Config, events: seq<Event>)
    requires Run(c, events).Some?
    ensures Conserved(c, Run(c, events).value) && Consistent(c, Run(c, events).value)
  {
    if events == [] {
      InitHolds(c);
    } else {
      var rest := events[..|events| - 1];
      EveryRunKeeps(c, rest);
      StepConserves(c, Run(c, rest).value, events[|events| - 1]);
      StepConsistent(c, Run(c, rest).value, events[|events| - 1]);
    }
  }
}
