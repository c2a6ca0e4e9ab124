/**
 Shortest paths over a heap with lazy deletion and an optional cost bound. A `Snapshot` is the
 value of the search's variables; `ranks` is ghost and numbers the nodes in the order in which they
 are expanded, which is what rules out predecessor cycles when arcs cost nothing.
 */
module RoutingSearch {
  import opened Wrappers
  import opened RoutingGraph
  import opened RoutingQueue

  /** What a search is asked: graph, cost field, source and cost bound (none unless positive). */
  datatype Query = Query(g: Graph, field: CostField, source: string, maxCost: real) {

    predicate Within(cost: real) {
      maxCost > 0.0 ==> cost <= maxCost
    }

    predicate UsableArcs(node: string, count: nat)
      requires count <= |g.ArcsOf(node)|
    {
      forall i | 0 <= i < count :: g.Usable(g.ArcsOf(node)[i], field)
    }

    /** A path of arcs of defined non-negative cost whose total is within the bound. */
    ghost predicate Admissible(path: seq<Hop>, target: string) {
      && g.IsPath(source, path, target)
      && g.UsablePath(path, field)
      && Within(g.Cost(path, field))
    }

    /** Exactly the nodes that have an admissible path, each with the least cost of one. */
    ghost predicate ShortestDistances(dist: map<string, real>) {
      && (forall v, p :: Admissible(p, v) ==> v in dist && dist[v] <= g.Cost(p, field))
      && (forall v | v in dist :: exists p :: Admissible(p, v) && g.Cost(p, field) == dist[v])
    }

    /** Some arc leaving a node that has an admissible path has no cost or a negative one. */
    ghost predicate Blocked() {
      exists v, p :: Admissible(p, v) && !UsableArcs(v, |g.ArcsOf(v)|)
    }

    ghost predicate Tight(dist: map<string, real>, hop: Hop, node: string) {
      && hop.arc in g.ArcsOf(hop.from) && hop.arc.to == node
      && g.Usable(hop.arc, field)
      && node in dist && hop.from in dist
      && dist[node] == dist[hop.from] + g.Weight(hop.arc, field)
    }

    /** Predecessors form a tree rooted at the source whose arcs account for every distance. */
    ghost predicate PredecessorTree(dist: map<string, real>, pred: map<string, Hop>, ranks: map<string, nat>) {
      && source in dist && dist[source] == 0.0
      && pred.Keys == dist.Keys - {source}
      && (forall v | v in pred :: Tight(dist, pred[v], v))
      && Acyclic(pred, ranks)
      && (forall v | v in dist :: Within(dist[v]))
    }
  }

  function Height(ranks: map<string, nat>, node: string): nat {
    if node in ranks then ranks[node] else |ranks|
  }

  ghost predicate Acyclic(pred: map<string, Hop>, ranks: map<string, nat>) {
    forall v | v in pred :: Height(ranks, pred[v].from) < Height(ranks, v)
  }

  datatype Snapshot = Snapshot(dist: map<string, real>, pred: map<string, Hop>,
                               queue: multiset<Item>, ranks: map<string, nat>)

  /** Every queued item is an upper bound; a pending node has exactly one live item, an expanded one none. */
  ghost predicate QueueAgrees(s: Snapshot) {
    && (forall it | it in s.queue :: it.node in s.dist && s.dist[it.node] <= it.cost)
    && (forall v | v in s.dist && v !in s.ranks :: s.queue[Item(v, s.dist[v])] == 1)
    && (forall v | v in s.ranks && v in s.dist :: s.queue[Item(v, s.dist[v])] == 0)
    && (forall v, it | v in s.ranks && v in s.dist && it in s.queue :: s.dist[v] <= it.cost)
  }

  /** The first `count` arcs of an expanded node are usable and no longer improve anything. */
  ghost predicate Relaxed(q: Query, s: Snapshot, node: string, count: nat)
    requires count <= |q.g.ArcsOf(node)|
  {
    node in s.dist &&
    forall i | 0 <= i < count ::
      var arc := q.g.ArcsOf(node)[i];
      && q.g.Usable(arc, q.field)
      && var next := s.dist[node] + q.g.Weight(arc, q.field);
         q.Within(next) ==> arc.to in s.dist && s.dist[arc.to] <= next
  }

  ghost predicate Ranked(s: Snapshot) {
    && s.ranks.Keys <= s.dist.Keys
    && (forall v | v in s.ranks :: s.ranks[v] < |s.ranks|)
    && (forall v | v in s.pred :: s.pred[v].from in s.ranks)
  }

  ghost predicate Sound(q: Query, s: Snapshot) {
    && q.PredecessorTree(s.dist, s.pred, s.ranks)
    && Ranked(s)
    && QueueAgrees(s)
    && (forall v | v in s.dist :: v in Universe(q) && s.dist[v] >= 0.0)
  }

  /** The loop invariant: every expanded node is relaxed. */
  ghost predicate Settled(q: Query, s: Snapshot) {
    && Sound(q, s)
    && forall v | v in s.ranks :: Relaxed(q, s, v, |q.g.ArcsOf(v)|)
  }

  /** The inner loop's invariant: `current` was expanded last and `count` of its arcs are done. */
  ghost predicate Expanding(q: Query, s: Snapshot, current: string, count: nat)
    requires count <= |q.g.ArcsOf(current)|
  {
    && Sound(q, s)
    && current in s.ranks
    && (forall v | v in s.ranks :: s.dist[v] <= s.dist[current])
    && (forall v | v in s.ranks && v != current :: Relaxed(q, s, v, |q.g.ArcsOf(v)|))
    && Relaxed(q, s, current, count)
  }

  ghost function Targets(arcs: seq<Arc>): set<string> {
    set i | 0 <= i < |arcs| :: arcs[i].to
  }

  ghost function Universe(q: Query): set<string> {
    {q.source} + set u, v | u in q.g.arcs && v in Targets(q.g.arcs[u]) :: v
  }

  lemma Start(q: Query, s: Snapshot)
    requires s == Snapshot(map[q.source := 0.0], map[], multiset{Item(q.source, 0.0)}, map[])
    ensures Settled(q, s)
  {
  }

  lemma RelaxedDependsOnDistances(q: Query, s: Snapshot, t: Snapshot)
    requires t.dist == s.dist
    requires forall v | v in s.ranks :: Relaxed(q, s, v, |q.g.ArcsOf(v)|)
    ensures forall v | v in s.ranks :: Relaxed(q, t, v, |q.g.ArcsOf(v)|)
  {
    forall v | v in s.ranks
      ensures Relaxed(q, t, v, |q.g.ArcsOf(v)|)
    {
      assert Relaxed(q, s, v, |q.g.ArcsOf(v)|);
    }
  }

  lemma DropStaleQueue(s: Snapshot, item: Item)
    requires QueueAgrees(s) && item in s.queue && s.dist[item.node] != item.cost
    ensures QueueAgrees(s.(queue := s.queue - multiset{item}))
  {
    var t := s.(queue := s.queue - multiset{item});
    assert forall it | it in t.queue :: it in s.queue;
    assert forall v | v in s.dist :: t.queue[Item(v, s.dist[v])] == s.queue[Item(v, s.dist[v])];
  }

  /** A popped item that no longer matches its node's distance is dropped. */
  lemma DropStale(q: Query, s: Snapshot, item: Item)
    requires Settled(q, s) && item in s.queue
    requires s.dist[item.node] != item.cost
    ensures Settled(q, s.(queue := s.queue - multiset{item}))
  {
    DropStaleQueue(s, item);
    RelaxedDependsOnDistances(q, s, s.(queue := s.queue - multiset{item}));
  }

  ghost predicate Expands(s: Snapshot, item: Item, t: Snapshot) {
    && item in s.queue && item.node in s.dist && s.dist[item.node] == item.cost
    && (forall other | other in s.queue :: item.cost <= other.cost)
    && t == s.(queue := s.queue - multiset{item}, ranks := s.ranks[item.node := |s.ranks|])
  }

  lemma ExpandQueue(s: Snapshot, item: Item, t: Snapshot)
    requires QueueAgrees(s) && Expands(s, item, t)
    ensures item.node !in s.ranks && QueueAgrees(t)
  {
    assert item == Item(item.node, s.dist[item.node]);
    assert item.node !in s.ranks;
    assert forall it | it in t.queue :: it in s.queue;
    assert forall v | v in s.dist ::
        t.queue[Item(v, s.dist[v])] == s.queue[Item(v, s.dist[v])] - if v == item.node then 1 else 0;
  }

  lemma ExpandTree(q: Query, s: Snapshot, item: Item, t: Snapshot)
    requires q.PredecessorTree(s.dist, s.pred, s.ranks) && Ranked(s)
    requires Expands(s, item, t) && item.node !in s.ranks
    ensures q.PredecessorTree(t.dist, t.pred, t.ranks) && Ranked(t)
  {
    assert |t.ranks| == |s.ranks| + 1 by {
      assert t.ranks.Keys == s.ranks.Keys + {item.node};
    }
    forall v | v in s.pred
      ensures Height(t.ranks, s.pred[v].from) < Height(t.ranks, v)
    {
      assert Height(s.ranks, s.pred[v].from) < Height(s.ranks, v);
      assert s.pred[v].from in s.ranks;
    }
  }

  /** A live item is the least one, and its node has not been expanded before. */
  lemma Expand(q: Query, s: Snapshot, item: Item, t: Snapshot)
    requires Settled(q, s) && Expands(s, item, t)
    ensures item.node !in s.ranks && item.node in Universe(q)
    ensures Expanding(q, t, item.node, 0)
  {
    ExpandQueue(s, item, t);
    ExpandTree(q, s, item, t);
    RelaxedDependsOnDistances(q, s, t);
    forall v | v in t.ranks
      ensures s.dist[v] <= item.cost
    {
      assert v == item.node || v in s.ranks;
    }
  }

  function Improve(s: Snapshot, hop: Hop, next: real): Snapshot {
    s.(dist := s.dist[hop.arc.to := next],
       pred := s.pred[hop.arc.to := hop],
       queue := s.queue + multiset{Item(hop.arc.to, next)})
  }

  ghost predicate Improves(q: Query, s: Snapshot, current: string, k: nat, next: real)
    requires k < |q.g.ArcsOf(current)|
  {
    var arc := q.g.ArcsOf(current)[k];
    && current in s.dist
    && q.g.Usable(arc, q.field) && next == s.dist[current] + q.g.Weight(arc, q.field)
    && q.Within(next)
    && (arc.to in s.dist ==> next < s.dist[arc.to])
  }

  /** Only a node that is not yet expanded can be improved. */
  lemma ImprovedIsPending(q: Query, s: Snapshot, current: string, k: nat, next: real)
    requires k < |q.g.ArcsOf(current)|
    requires Expanding(q, s, current, k) && Improves(q, s, current, k, next)
    ensures var v := q.g.ArcsOf(current)[k].to;
      v !in s.ranks && v != q.source && v in Universe(q)
  {
    var v := q.g.ArcsOf(current)[k].to;
    assert v in Targets(q.g.arcs[current]);
    assert forall u | u in s.ranks :: s.dist[u] <= s.dist[current];
  }

  lemma TightKept(q: Query, s: Snapshot, hop: Hop, next: real, w: string)
    requires w in s.pred && TightAt(q, s, w)
    requires w != hop.arc.to && s.pred[w].from != hop.arc.to
    ensures TightAt(q, Improve(s, hop, next), w)
  {
  }

  lemma TightNew(q: Query, s: Snapshot, current: string, k: nat, next: real)
    requires k < |q.g.ArcsOf(current)| && Improves(q, s, current, k, next)
    requires q.g.ArcsOf(current)[k].to != current
    ensures TightAt(q, Improve(s, Hop(current, q.g.ArcsOf(current)[k]), next), q.g.ArcsOf(current)[k].to)
  {
  }

  lemma ImproveTree(q: Query, s: Snapshot, current: string, k: nat, next: real)
    requires k < |q.g.ArcsOf(current)|
    requires Expanding(q, s, current, k) && Improves(q, s, current, k, next)
    ensures var t := Improve(s, Hop(current, q.g.ArcsOf(current)[k]), next);
      q.PredecessorTree(t.dist, t.pred, t.ranks) && Ranked(t)
  {
    var hop := Hop(current, q.g.ArcsOf(current)[k]);
    var t := Improve(s, hop, next);
    ImprovedIsPending(q, s, current, k, next);
    forall w | w in t.pred
      ensures TightAt(q, t, w)
    {
      if w == hop.arc.to {
        TightNew(q, s, current, k, next);
      } else {
        TightKept(q, s, hop, next, w);
      }
    }
    forall w | w in t.pred
      ensures Height(t.ranks, t.pred[w].from) < Height(t.ranks, w)
    {
      if w != hop.arc.to {
        assert Height(s.ranks, s.pred[w].from) < Height(s.ranks, w);
      }
    }
  }

  ghost predicate TightAt(q: Query, s: Snapshot, v: string)
    requires v in s.pred
  {
    q.Tight(s.dist, s.pred[v], v)
  }

  lemma PushKeepsQueue(s: Snapshot, hop: Hop, next: real)
    requires QueueAgrees(s) && hop.arc.to !in s.ranks
    requires hop.arc.to in s.dist ==> next < s.dist[hop.arc.to]
    requires forall v | v in s.ranks && v in s.dist :: s.dist[v] <= next
    ensures QueueAgrees(Improve(s, hop, next))
  {
    var v, t := hop.arc.to, Improve(s, hop, next);
    assert Item(v, next) !in s.queue;
    forall w | w in t.dist && w !in s.ranks
      ensures t.queue[Item(w, t.dist[w])] == 1
    {
      assert w != v ==> t.dist[w] == s.dist[w];
    }
    forall w | w in s.ranks && w in t.dist
      ensures t.queue[Item(w, t.dist[w])] == 0 && t.dist[w] == s.dist[w]
    {
    }
    forall it | it in t.queue
      ensures it == Item(v, next) || it in s.queue
    {
    }
  }

  lemma ImproveQueue(q: Query, s: Snapshot, current: string, k: nat, next: real)
    requires k < |q.g.ArcsOf(current)|
    requires Expanding(q, s, current, k) && Improves(q, s, current, k, next)
    ensures QueueAgrees(Improve(s, Hop(current, q.g.ArcsOf(current)[k]), next))
  {
    ImprovedIsPending(q, s, current, k, next);
    PushKeepsQueue(s, Hop(current, q.g.ArcsOf(current)[k]), next);
  }

  lemma ImproveRelaxed(q: Query, s: Snapshot, current: string, k: nat, next: real, node: string, count: nat)
    requires k < |q.g.ArcsOf(current)|
    requires Expanding(q, s, current, k) && Improves(q, s, current, k, next)
    requires node in s.ranks && count <= |q.g.ArcsOf(node)| && Relaxed(q, s, node, count)
    ensures Relaxed(q, Improve(s, Hop(current, q.g.ArcsOf(current)[k]), next), node, count)
  {
    ImprovedIsPending(q, s, current, k, next);
  }

  lemma ImproveSound(q: Query, s: Snapshot, current: string, k: nat, next: real)
    requires k < |q.g.ArcsOf(current)|
    requires Expanding(q, s, current, k) && Improves(q, s, current, k, next)
    ensures Sound(q, Improve(s, Hop(current, q.g.ArcsOf(current)[k]), next))
  {
    ImprovedIsPending(q, s, current, k, next);
    ImproveTree(q, s, current, k, next);
    ImproveQueue(q, s, current, k, next);
  }

  /** The arc that improved is relaxed now. */
  lemma ImproveLast(q: Query, s: Snapshot, current: string, k: nat, next: real)
    requires k < |q.g.ArcsOf(current)|
    requires Expanding(q, s, current, k) && Improves(q, s, current, k, next)
    ensures Relaxed(q, Improve(s, Hop(current, q.g.ArcsOf(current)[k]), next), current, k + 1)
  {
    ImprovedIsPending(q, s, current, k, next);
    ImproveRelaxed(q, s, current, k, next, current, k);
  }

  lemma ImproveOthers(q: Query, s: Snapshot, current: string, k: nat, next: real)
    requires k < |q.g.ArcsOf(current)|
    requires Expanding(q, s, current, k) && Improves(q, s, current, k, next)
    ensures forall v | v in s.ranks && v != current ::
      Relaxed(q, Improve(s, Hop(current, q.g.ArcsOf(current)[k]), next), v, |q.g.ArcsOf(v)|)
  {
    forall v | v in s.ranks && v != current
      ensures Relaxed(q, Improve(s, Hop(current, q.g.ArcsOf(current)[k]), next), v, |q.g.ArcsOf(v)|)
    {
      ImproveRelaxed(q, s, current, k, next, v, |q.g.ArcsOf(v)|);
    }
  }

  /** Recording a strict improvement keeps the inner invariant. */
  lemma RelaxImproving(q: Query, s: Snapshot, current: string, k: nat, next: real)
    requires k < |q.g.ArcsOf(current)|
    requires Expanding(q, s, current, k) && Improves(q, s, current, k, next)
    ensures Expanding(q, Improve(s, Hop(current, q.g.ArcsOf(current)[k]), next), current, k + 1)
  {
    ImprovedIsPending(q, s, current, k, next);
    ImproveSound(q, s, current, k, next);
    ImproveLast(q, s, current, k, next);
    ImproveOthers(q, s, current, k, next);
  }

  /** An arc that improves nothing is done with. */
  lemma RelaxSettled(q: Query, s: Snapshot, current: string, k: nat, next: real)
    requires k < |q.g.ArcsOf(current)| && Expanding(q, s, current, k)
    requires var arc := q.g.ArcsOf(current)[k];
      q.g.Usable(arc, q.field) && next == s.dist[current] + q.g.Weight(arc, q.field)
    requires !Improves(q, s, current, k, next)
    ensures Expanding(q, s, current, k + 1)
  {
  }

  lemma ExpandedIsSettled(q: Query, s: Snapshot, current: string)
    requires Expanding(q, s, current, |q.g.ArcsOf(current)|)
    ensures Settled(q, s)
  {
  }

  /** The path the predecessors describe, source first. */
  ghost function TreePath(pred: map<string, Hop>, ranks: map<string, nat>, node: string): seq<Hop>
    requires Acyclic(pred, ranks)
    decreases Height(ranks, node)
  {
    if node !in pred then [] else TreePath(pred, ranks, pred[node].from) + [pred[node]]
  }

  /** The tree path of a recorded node is admissible and costs exactly the recorded distance. */
  lemma {:induction false} TreePathIsShortest(
    q: Query, dist: map<string, real>, pred: map<string, Hop>, ranks: map<string, nat>, node: string)
    requires q.PredecessorTree(dist, pred, ranks) && node in dist
    ensures q.Admissible(TreePath(pred, ranks, node), node)
    ensures q.g.Cost(TreePath(pred, ranks, node), q.field) == dist[node]
    decreases Height(ranks, node)
  {
    if node != q.source {
      var hop := pred[node];
      assert q.Tight(dist, hop, node);
      TreePathIsShortest(q, dist, pred, ranks, hop.from);
      var p := TreePath(pred, ranks, hop.from);
      assert (p + [hop])[..|p|] == p;
    }
  }

  /** Once nothing is pending, every admissible path is matched. */
  lemma {:induction false} AdmissibleIsMatched(q: Query, s: Snapshot, path: seq<Hop>, target: string)
    requires Settled(q, s) && s.queue == multiset{}
    requires q.Admissible(path, target)
    ensures target in s.ranks && s.dist[target] <= q.g.Cost(path, q.field)
  {
    if path == [] {
      assert q.source in s.ranks;
    } else {
      var rest, last := path[..|path| - 1], path[|path| - 1];
      assert q.g.Usable(last.arc, q.field);
      AdmissibleIsMatched(q, s, rest, last.from);
      assert Relaxed(q, s, last.from, |q.g.ArcsOf(last.from)|);
      var i :| 0 <= i < |q.g.ArcsOf(last.from)| && q.g.ArcsOf(last.from)[i] == last.arc;
      assert target in s.dist && target in s.ranks;
    }
  }

  lemma Finish(q: Query, s: Snapshot)
    requires Settled(q, s) && s.queue == multiset{}
    ensures q.ShortestDistances(s.dist) && !q.Blocked()
  {
    forall v, p | q.Admissible(p, v)
      ensures v in s.dist && s.dist[v] <= q.g.Cost(p, q.field)
      ensures q.UsableArcs(v, |q.g.ArcsOf(v)|)
    {
      AdmissibleIsMatched(q, s, p, v);
      assert Relaxed(q, s, v, |q.g.ArcsOf(v)|);
    }
    forall v | v in s.dist
      ensures exists p :: q.Admissible(p, v) && q.g.Cost(p, q.field) == s.dist[v]
    {
      TreePathIsShortest(q, s.dist, s.pred, s.ranks, v);
    }
  }

  lemma UnusableArcBlocks(q: Query, s: Snapshot, current: string, k: nat)
    requires k < |q.g.ArcsOf(current)|
    requires Expanding(q, s, current, k) && !q.g.Usable(q.g.ArcsOf(current)[k], q.field)
    ensures q.Blocked()
  {
    TreePathIsShortest(q, s.dist, s.pred, s.ranks, current);
  }

  datatype SearchError = NoCost(arc: Arc) | NegativeCost(arc: Arc)

  datatype Paths = Paths(dist: map<string, real>, pred: map<string, Hop>)

  /** The k-th arc out of the node that is being expanded. */
  method RelaxArc(q: Query, current: Item, k: nat, queue: PriorityQueue, paths: Paths, ghost ranks: map<string, nat>)
    returns (r: Result<Paths, SearchError>)
    requires queue.Valid() && current.node in paths.dist && paths.dist[current.node] == current.cost
    requires k < |q.g.ArcsOf(current.node)|
    requires Expanding(q, Snapshot(paths.dist, paths.pred, multiset(queue.items), ranks), current.node, k)
    modifies queue
    ensures queue.Valid()
    ensures r.Err? ==> q.Blocked()
    ensures r.Ok? ==> current.node in r.value.dist && r.value.dist[current.node] == current.cost
    ensures r.Ok? ==>
      Expanding(q, Snapshot(r.value.dist, r.value.pred, multiset(queue.items), ranks), current.node, k + 1)
  {
    ghost var s := Snapshot(paths.dist, paths.pred, multiset(queue.items), ranks);
    var arc := q.g.ArcsOf(current.node)[k];
    var weight := q.g.ArcCost(arc, q.field);
    if weight.None? {
      UnusableArcBlocks(q, s, current.node, k);
      return Err(NoCost(arc));
    }
    if weight.value < 0.0 {
      UnusableArcBlocks(q, s, current.node, k);
      return Err(NegativeCost(arc));
    }
    var next := current.cost + weight.value;
    if q.Within(next) && (arc.to !in paths.dist || next < paths.dist[arc.to]) {
      ImprovedIsPending(q, s, current.node, k, next);
      RelaxImproving(q, s, current.node, k, next);
      queue.Push(Item(arc.to, next));
      return Ok(Paths(paths.dist[arc.to := next], paths.pred[arc.to := Hop(current.node, arc)]));
    }
    RelaxSettled(q, s, current.node, k, next);
    r := Ok(paths);
  }

  /** Relaxes every arc leaving the node just popped. */
  method ExpandNode(q: Query, current: Item, queue: PriorityQueue, paths: Paths, ghost ranks: map<string, nat>)
    returns (r: Result<Paths, SearchError>)
    requires queue.Valid() && current.node in paths.dist && paths.dist[current.node] == current.cost
    requires Expanding(q, Snapshot(paths.dist, paths.pred, multiset(queue.items), ranks), current.node, 0)
    modifies queue
    ensures queue.Valid()
    ensures r.Err? ==> q.Blocked()
    ensures r.Ok? ==>
      Expanding(q, Snapshot(r.value.dist, r.value.pred, multiset(queue.items), ranks), current.node, |q.g.ArcsOf(current.node)|)
  {
    r := Ok(paths);
    for k := 0 to |q.g.ArcsOf(current.node)|
      invariant queue.Valid() && r.Ok? && current.node in r.value.dist && r.value.dist[current.node] == current.cost
      invariant Expanding(q, Snapshot(r.value.dist, r.value.pred, multiset(queue.items), ranks), current.node, k)
    {
      r := RelaxArc(q, current, k, queue, r.value, ranks);
      if r.Err? {
        return;
      }
    }
  }

  method ShortestPaths(q: Query) returns (r: Result<Paths, SearchError>)
    ensures r.Err? <==> q.Blocked()
    ensures r.Ok? ==> q.ShortestDistances(r.value.dist)
    ensures r.Ok? ==> exists ranks :: q.PredecessorTree(r.value.dist, r.value.pred, ranks)
  {
    var paths := Paths(map[q.source := 0.0], map[]);
    var queue := new PriorityQueue(Item(q.source, 0.0));
    ghost var ranks: map<string, nat> := map[];
    Start(q, Snapshot(paths.dist, paths.pred, multiset(queue.items), ranks));
    while queue.items != []
      invariant fresh(queue) && queue.Valid()
      invariant Settled(q, Snapshot(paths.dist, paths.pred, multiset(queue.items), ranks))
      decreases Universe(q) - ranks.Keys, |queue.items|
    {
      ghost var before := Snapshot(paths.dist, paths.pred, multiset(queue.items), ranks);
      var current := queue.Pop();
      assert current in before.queue;
      if paths.dist[current.node] != current.cost {
        DropStale(q, before, current);
      } else if q.Within(current.cost) {
        ranks := ranks[current.node := |ranks|];
        Expand(q, before, current, Snapshot(paths.dist, paths.pred, multiset(queue.items), ranks));
        var relaxed := ExpandNode(q, current, queue, paths, ranks);
        if relaxed.Err? {
          return relaxed;
        }
        paths := relaxed.value;
        ExpandedIsSettled(q, Snapshot(paths.dist, paths.pred, multiset(queue.items), ranks), current.node);
      }
    }
    Finish(q, Snapshot(paths.dist, paths.pred, multiset(queue.items), ranks));
    r := Ok(paths);
  }
}
