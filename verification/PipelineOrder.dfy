/** In which order steps start, and how many are under way at once. */
module PipelineOrder {
  import opened Wrappers
  import opened PipelineExecutor

  /** The steps handed over in a run, in order. */
  function Starts(c: Config, events: seq<Event>): seq<nat> {
    if events == [] then []
    else
      var rest, e := events[..|events| - 1], events[|events| - 1];
      Starts(c, rest) + (if e.HandOver? && Run(c, rest).Some? then [Run(c, rest).value.fed] else [])
  }

  /** The steps whose statement has ended in a run, in order. */
  function Ends(c: Config, events: seq<Event>): seq<nat> {
    if events == [] then []
    else
      var rest, e := events[..|events| - 1], events[|events| - 1];
      Ends(c, rest) +
      (if e.Finish? && Run(c, rest).Some? && Enabled(c, Run(c, rest).value, e)
       then [Run(c, rest).value.workers[e.w].step] else [])
  }

  function Count(n: nat): seq<nat> { seq(n, i => i) }

  lemma OnlyHandOverFeeds(c: Config, s: State, e: Event)
    requires Enabled(c, s, e)
    ensures Next(c, s, e).fed == s.fed + if e.HandOver? then 1 else 0
  {
  }

  lemma CountOneMore(n: nat)
    ensures Count(n + 1) == Count(n) + [n]
    ensures Count(n) == Count(n) + []
  {
  }

  /** Whatever the parallelism, steps start in definition order and each at most once. */
  lemma {:induction false} StartsInOrder(c: Config, events: seq<Event>)
    requires Run(c, events).Some?
    ensures Starts(c, events) == Count(Run(c, events).value.fed)
  {
    if events != [] {
      var rest, e := events[..|events| - 1], events[|events| - 1];
      var s := Run(c, rest).value;
      StartsInOrder(c, rest);
      OnlyHandOverFeeds(c, s, e);
      CountOneMore(s.fed);
    }
  }

  /** No more steps are under way than there are workers. */
  lemma BoundedParallelism(c: Config, events: seq<Event>)
    requires Run(c, events).Some?
    ensures BusyCount(Run(c, events).value.workers) <= c.Workers()
    ensures c.maxParallelism >= 1 ==> BusyCount(Run(c, events).value.workers) <= c.maxParallelism
    ensures BusyCount(Run(c, events).value.workers) <= c.steps
  {
    EveryRunKeeps(c, events);
  }

  /** The first n steps are under way, each with a worker of its own. */
  function Spread(c: Config, n: nat): State {
    Init(c).(fed := n, workers := seq(c.Workers(), i requires 0 <= i => if i < n then Executing(i) else Waiting))
  }

  lemma {:induction false} AllBusy(ws: seq<Worker>, n: nat)
    requires n <= |ws| && forall i | 0 <= i < |ws| :: Busy(ws[i]) <==> i < n
    ensures BusyCount(ws) == n
  {
    if ws != [] {
      AllBusy(ws[1..], if n > 0 then n - 1 else 0);
    }
  }

  lemma {:induction false} SpreadsTo(c: Config, n: nat) returns (events: seq<Event>)
    requires n <= c.steps && n <= c.Workers()
    ensures Run(c, events) == Some(Spread(c, n))
  {
    if n == 0 {
      events := [];
      assert Spread(c, 0).workers == Init(c).workers;
    } else {
      var before := SpreadsTo(c, n - 1);
      events := before + [HandOver(n - 1)];
      assert events[..|before|] == before;
      assert Spread(c, n).workers == Spread(c, n - 1).workers[n - 1 := Executing(n - 1)];
    }
  }

  /** Exactly so many steps can be under way at once as there are and the parallelism, at least one, allows. */
  lemma ParallelismIff(c: Config, n: nat)
    ensures (exists events :: Run(c, events).Some? && BusyCount(Run(c, events).value.workers) == n)
      <==> n <= c.steps && (n <= 1 || n <= c.maxParallelism)
  {
    if n <= c.steps && (n <= 1 || n <= c.maxParallelism) {
      var events := SpreadsTo(c, n);
      AllBusy(Spread(c, n).workers, n);
    }
    forall events | Run(c, events).Some? && BusyCount(Run(c, events).value.workers) == n
      ensures n <= c.steps && (n <= 1 || n <= c.maxParallelism)
    {
      BoundedParallelism(c, events);
    }
  }

  ghost predicate Sequential(s: State, ends: seq<nat>) {
    && |s.workers| == 1
    && if s.workers[0].Executing? then s.fed > 0 && s.workers[0].step == s.fed - 1 && ends == Count(s.fed - 1)
       else ends == Count(s.fed)
  }

  lemma StepIsSequential(c: Config, s: State, e: Event, ends: seq<nat>)
    requires Enabled(c, s, e) && Sequential(s, ends)
    ensures Sequential(Next(c, s, e), ends + if e.Finish? then [s.workers[e.w].step] else [])
  {
    if e.Finish? {
      assert Count(s.fed) == Count(s.fed - 1) + [s.fed - 1];
    } else {
      assert ends + [] == ends;
    }
  }

  /** With one worker a step starts only when every earlier one has ended. */
  lemma {:induction false} OneWorkerIsSequential(c: Config, events: seq<Event>)
    requires c.Workers() == 1 && Run(c, events).Some?
    ensures Sequential(Run(c, events).value, Ends(c, events))
  {
    if events != [] {
      var rest := events[..|events| - 1];
      OneWorkerIsSequential(c, rest);
      StepIsSequential(c, Run(c, rest).value, events[|events| - 1], Ends(c, rest));
    }
  }
}
