/** What callers of the search rely on: bounded and unbounded searches agree, and routes are real. */
module RoutingPath {
  import opened Wrappers
  import opened RoutingGraph
  import opened RoutingCosts
  import opened RoutingSearch

  lemma ShortestDistancesBelow(q: Query, d: map<string, real>, e: map<string, real>, v: string)
    requires q.ShortestDistances(d) && q.ShortestDistances(e) && v in d
    ensures v in e && e[v] <= d[v]
  {
    var p :| q.Admissible(p, v) && q.g.Cost(p, q.field) == d[v];
  }

  /** Two maps with the same defining property are the same map. */
  lemma ShortestDistancesUnique(q: Query, d: map<string, real>, e: map<string, real>)
    requires q.ShortestDistances(d) && q.ShortestDistances(e)
    ensures d == e
  {
    forall v | v in d
      ensures v in e && e[v] <= d[v]
    {
      ShortestDistancesBelow(q, d, e, v);
    }
    forall v | v in e
      ensures v in d && d[v] <= e[v]
    {
      ShortestDistancesBelow(q, e, d, v);
    }
  }

  /** Pruning during the search loses nothing: a bound only restricts the unbounded answer. */
  lemma BoundRestricts(q: Query, all: map<string, real>, bounded: map<string, real>)
    requires q.maxCost > 0.0
    requires q.(maxCost := 0.0).ShortestDistances(all) && q.ShortestDistances(bounded)
    ensures bounded == map v | v in all && all[v] <= q.maxCost :: all[v]
  {
    var free := q.(maxCost := 0.0);
    forall v | v in bounded
      ensures v in all && all[v] == bounded[v] <= q.maxCost
    {
      var p :| q.Admissible(p, v) && q.g.Cost(p, q.field) == bounded[v];
      assert free.Admissible(p, v);
      var r :| free.Admissible(r, v) && q.g.Cost(r, q.field) == all[v];
      assert q.Admissible(r, v);
    }
    forall v | v in all && all[v] <= q.maxCost
      ensures v in bounded
    {
      var r :| free.Admissible(r, v) && q.g.Cost(r, q.field) == all[v];
      assert q.Admissible(r, v);
    }
  }

  /** A search that succeeds without a bound succeeds with any bound. */
  lemma BoundNeverBlocks(q: Query)
    requires !q.(maxCost := 0.0).Blocked()
    ensures !q.Blocked()
  {
    if q.Blocked() {
      var v, p :| q.Admissible(p, v) && !q.UsableArcs(v, |q.g.ArcsOf(v)|);
      assert q.(maxCost := 0.0).Admissible(p, v);
    }
  }

  ghost predicate Reachable(q: Query, node: string) {
    exists p :: q.g.IsPath(q.source, p, node)
  }

  lemma {:induction false} PathIsUsableOrBlocked(q: Query, path: seq<Hop>, node: string)
    requires q.maxCost <= 0.0 && q.g.IsPath(q.source, path, node)
    ensures q.g.UsablePath(path, q.field) || q.Blocked()
  {
    if path != [] {
      var rest, last := path[..|path| - 1], path[|path| - 1];
      PathIsUsableOrBlocked(q, rest, last.from);
      if q.g.UsablePath(rest, q.field) {
        assert q.Admissible(rest, last.from);
        var i :| 0 <= i < |q.g.ArcsOf(last.from)| && q.g.ArcsOf(last.from)[i] == last.arc;
        if !q.g.Usable(last.arc, q.field) {
          assert !q.UsableArcs(last.from, |q.g.ArcsOf(last.from)|);
        }
      }
    }
  }

  /** An unbounded search fails exactly when some arc leaving a reachable node has no usable cost. */
  lemma UnboundedBlockedIff(q: Query)
    requires q.maxCost <= 0.0
    ensures q.Blocked() <==> exists v :: Reachable(q, v) && !q.UsableArcs(v, |q.g.ArcsOf(v)|)
  {
    if v :| Reachable(q, v) && !q.UsableArcs(v, |q.g.ArcsOf(v)|) {
      var p :| q.g.IsPath(q.source, p, v);
      PathIsUsableOrBlocked(q, p, v);
      if q.g.UsablePath(p, q.field) {
        assert q.Admissible(p, v);
      }
    }
  }

  /** An unbounded search that succeeds reaches exactly the reachable nodes, and no path is cheaper. */
  lemma UnboundedReachesAll(q: Query, dist: map<string, real>)
    requires q.maxCost <= 0.0 && q.ShortestDistances(dist) && !q.Blocked()
    ensures forall v :: v in dist <==> Reachable(q, v)
    ensures forall v, p :: q.g.IsPath(q.source, p, v) ==> v in dist && dist[v] <= q.g.Cost(p, q.field)
  {
    forall v, p | q.g.IsPath(q.source, p, v)
      ensures v in dist && dist[v] <= q.g.Cost(p, q.field)
    {
      PathIsUsableOrBlocked(q, p, v);
      assert q.Admissible(p, v);
    }
    forall v | v in dist
      ensures Reachable(q, v)
    {
      var p :| q.Admissible(p, v) && q.g.Cost(p, q.field) == dist[v];
      assert q.g.IsPath(q.source, p, v);
    }
  }

  lemma UndirectedBackIsNoFarther(
    q: Query, r: Query, edges: seq<Edge>, dist: map<string, real>, back: map<string, real>)
    requires Loaded(q.g, edges, false) && SymmetricDistance(q.g)
    requires r == q.(source := r.source) && r.source in dist
    requires q.ShortestDistances(dist) && r.ShortestDistances(back)
    ensures q.source in back && back[q.source] <= dist[r.source]
  {
    var p :| q.Admissible(p, r.source) && q.g.Cost(p, q.field) == dist[r.source];
    UndirectedPathsReverse(q.g, edges, q.field, q.source, p, r.source);
    assert r.Admissible(ReversePath(p), q.source);
  }

  /** In an undirected graph the distance from a to b is the distance from b to a. */
  lemma UndirectedDistanceSymmetric(
    q: Query, edges: seq<Edge>, dist: map<string, real>, target: string, back: map<string, real>)
    requires Loaded(q.g, edges, false) && SymmetricDistance(q.g)
    requires q.ShortestDistances(dist) && q.(source := target).ShortestDistances(back)
    ensures target in dist <==> q.source in back
    ensures target in dist ==> dist[target] == back[q.source]
  {
    var r := q.(source := target);
    if target in dist {
      UndirectedBackIsNoFarther(q, r, edges, dist, back);
    }
    if q.source in back {
      UndirectedBackIsNoFarther(r, q, edges, back, dist);
    }
  }

  /** Follows predecessors back from `to`; None when they run out before `from`. */
  ghost function Chain(pred: map<string, Hop>, ranks: map<string, nat>, from: string, to: string): Option<seq<Hop>>
    requires Acyclic(pred, ranks)
    decreases Height(ranks, to)
  {
    if to == from then Some([])
    else if to !in pred then None
    else
      var front := Chain(pred, ranks, from, pred[to].from);
      if front.None? then None else Some(front.value + [pred[to]])
  }

  lemma {:induction false} ChainOfTree(q: Query, dist: map<string, real>, pred: map<string, Hop>,
                                       ranks: map<string, nat>, to: string)
    requires q.PredecessorTree(dist, pred, ranks) && to in dist
    ensures Chain(pred, ranks, q.source, to) == Some(TreePath(pred, ranks, to))
    decreases Height(ranks, to)
  {
    if to != q.source {
      assert q.Tight(dist, pred[to], to);
      ChainOfTree(q, dist, pred, ranks, pred[to].from);
    }
  }

  datatype Route = Route(nodes: seq<string>, arcs: seq<Arc>)

  /** The route a path to `to` describes. */
  ghost function RouteOf(path: seq<Hop>, to: string): Route {
    Route(seq(|path|, i requires 0 <= i < |path| => path[i].from) + [to],
          seq(|path|, i requires 0 <= i < |path| => path[i].arc))
  }

  function Reversed<T>(s: seq<T>): (r: seq<T>)
    ensures |r| == |s| && forall i | 0 <= i < |s| :: r[i] == s[|s| - 1 - i]
  {
    seq(|s|, i requires 0 <= i < |s| => s[|s| - 1 - i])
  }

  method ReverseInPlace<T>(a: array<T>)
    modifies a
    ensures a[..] == Reversed(old(a[..]))
  {
    var i, j := 0, a.Length - 1;
    while i < j
      invariant 0 <= i && j == a.Length - 1 - i && i <= j + 1
      invariant forall k | 0 <= k < i || j < k < a.Length :: a[k] == old(a[a.Length - 1 - k])
      invariant forall k | i <= k <= j :: a[k] == old(a[k])
    {
      a[i], a[j] := a[j], a[i];
      i, j := i + 1, j - 1;
    }
  }

  method ReverseList<T(0)>(s: seq<T>) returns (r: seq<T>)
    ensures r == Reversed(s)
  {
    var a := new T[|s|](i requires 0 <= i < |s| => s[i]);
    assert a[..] == s;
    ReverseInPlace(a);
    r := a[..];
  }

  lemma ExtendRoute(hop: Hop, done: seq<Hop>, to: string)
    ensures var longer := RouteOf([hop] + done, to);
      && longer.nodes[0] == hop.from
      && Reversed(longer.nodes) == Reversed(RouteOf(done, to).nodes) + [hop.from]
      && Reversed(longer.arcs) == Reversed(RouteOf(done, to).arcs) + [hop.arc]
  {
    assert RouteOf([hop] + done, to).nodes == [hop.from] + RouteOf(done, to).nodes;
    assert RouteOf([hop] + done, to).arcs == [hop.arc] + RouteOf(done, to).arcs;
  }

  lemma ReversedTwice<T>(s: seq<T>)
    ensures Reversed(Reversed(s)) == s
  {
  }

  /** What is left to follow and what has been followed always make up the whole chain. */
  ghost predicate Followed(pred: map<string, Hop>, ranks: map<string, nat>, from: string, to: string,
                           current: string, done: seq<Hop>)
    requires Acyclic(pred, ranks)
  {
    var whole, left := Chain(pred, ranks, from, to), Chain(pred, ranks, from, current);
    if left.None? then whole.None? else whole == Some(left.value + done)
  }

  lemma FollowOne(pred: map<string, Hop>, ranks: map<string, nat>, from: string, to: string,
                  current: string, done: seq<Hop>)
    requires Acyclic(pred, ranks) && Followed(pred, ranks, from, to, current, done)
    requires current != from && current in pred
    ensures Followed(pred, ranks, from, to, pred[current].from, [pred[current]] + done)
  {
    var front := Chain(pred, ranks, from, pred[current].from);
    if front.Some? {
      assert (front.value + [pred[current]]) + done == front.value + ([pred[current]] + done);
    }
  }

  method ReconstructRoutingPath(from: string, to: string, pred: map<string, Hop>, ghost ranks: map<string, nat>)
    returns (r: Option<Route>)
    requires Acyclic(pred, ranks)
    ensures r.None? <==> Chain(pred, ranks, from, to).None?
    ensures r.Some? ==> r.value == RouteOf(Chain(pred, ranks, from, to).value, to)
  {
    var nodes, arcs := [to], [];
    var current := to;
    ghost var done: seq<Hop> := [];
    assert var whole := Chain(pred, ranks, from, to); whole.Some? ==> whole.value + done == whole.value;
    while current != from
      invariant nodes == Reversed(RouteOf(done, to).nodes) && arcs == Reversed(RouteOf(done, to).arcs)
      invariant Followed(pred, ranks, from, to, current, done)
      decreases Height(ranks, current)
    {
      if current !in pred {
        return None;
      }
      var previous := pred[current];
      ExtendRoute(previous, done, to);
      FollowOne(pred, ranks, from, to, current, done);
      arcs := arcs + [previous.arc];
      nodes := nodes + [previous.from];
      done := [previous] + done;
      current := previous.from;
    }
    ReversedTwice(RouteOf(done, to).nodes);
    ReversedTwice(RouteOf(done, to).arcs);
    assert [] + done == done;
    nodes := ReverseList(nodes);
    arcs := ReverseList(arcs);
    r := Some(Route(nodes, arcs));
  }

  /** A route of existing arcs, each starting where the one before it ended. */
  ghost predicate IsRoute(g: Graph, from: string, route: Route, to: string) {
    && |route.nodes| == |route.arcs| + 1
    && route.nodes[0] == from && route.nodes[|route.arcs|] == to
    && forall i | 0 <= i < |route.arcs| ::
         route.arcs[i] in g.ArcsOf(route.nodes[i]) && route.arcs[i].to == route.nodes[i + 1]
  }

  ghost function Total(g: Graph, field: CostField, arcs: seq<Arc>): real {
    if arcs == [] then 0.0 else Total(g, field, arcs[..|arcs| - 1]) + g.Weight(arcs[|arcs| - 1], field)
  }

  lemma LongerRoute(g: Graph, field: CostField, from: string, front: Route, last: Hop, route: Route)
    requires IsRoute(g, from, front, last.from) && last.arc in g.ArcsOf(last.from)
    requires route == Route(front.nodes + [last.arc.to], front.arcs + [last.arc])
    ensures IsRoute(g, from, route, last.arc.to)
    ensures Total(g, field, route.arcs) == Total(g, field, front.arcs) + g.Weight(last.arc, field)
  {
    assert route.arcs[..|front.arcs|] == front.arcs;
  }

  lemma {:induction false} PathGivesRoute(g: Graph, field: CostField, from: string, path: seq<Hop>, to: string)
    requires g.IsPath(from, path, to)
    ensures IsRoute(g, from, RouteOf(path, to), to)
    ensures Total(g, field, RouteOf(path, to).arcs) == g.Cost(path, field)
  {
    if path != [] {
      var rest, last := path[..|path| - 1], path[|path| - 1];
      PathGivesRoute(g, field, from, rest, last.from);
      LongerRoute(g, field, from, RouteOf(rest, last.from), last, RouteOf(path, to));
    }
  }

  lemma {:induction false} TotalIsSum(g: Graph, field: CostField, arcs: seq<Arc>, price: Arc -> real)
    requires (forall arc | arc in arcs :: g.Usable(arc, field)) && Prices(g, field, arcs, price)
    ensures Total(g, field, arcs) == Sum(arcs, price)
  {
    if arcs != [] {
      var front, last := arcs[..|arcs| - 1], arcs[|arcs| - 1];
      TotalIsSum(g, field, front, price);
      CostIs(g, field, last, price(last));
    }
  }

  /** A route whose arcs total the least distance is the cheapest by what the edges record. */
  lemma RouteIsCheapest(q: Query, dist: map<string, real>, to: string, arcs: seq<Arc>)
    requires q.maxCost <= 0.0 && q.ShortestDistances(dist) && !q.Blocked() && to in dist
    requires (forall arc | arc in arcs :: q.g.Usable(arc, q.field)) && Total(q.g, q.field, arcs) == dist[to]
    ensures Cheapest(q.g, q.field, q.source, to, arcs, dist[to])
  {
    forall price | Prices(q.g, q.field, arcs, price)
      ensures dist[to] == Sum(arcs, price)
    {
      TotalIsSum(q.g, q.field, arcs, price);
    }
    forall path, price | q.g.IsPath(q.source, path, to) && Prices(q.g, q.field, Arcs(path), price)
      ensures dist[to] <= Sum(Arcs(path), price)
    {
      UnboundedReachesAll(q, dist);
      PathIsUsableOrBlocked(q, path, to);
      CostIsSum(q.g, q.field, path, price);
    }
  }

  /** Distances are sums of what edges record: one path attains them, and none within the bound falls below. */
  lemma DistancesAreSums(q: Query, dist: map<string, real>, v: string)
    requires q.ShortestDistances(dist) && v in dist
    ensures exists path, price ::
      && q.g.IsPath(q.source, path, v) && Prices(q.g, q.field, Arcs(path), price)
      && dist[v] == Sum(Arcs(path), price)
    ensures forall path, price | q.Admissible(path, v) && Prices(q.g, q.field, Arcs(path), price) ::
      dist[v] <= Sum(Arcs(path), price)
  {
    var p :| q.Admissible(p, v) && q.g.Cost(p, q.field) == dist[v];
    UsableArePriced(q.g, q.field, Arcs(p));
    CostIsSum(q.g, q.field, p, Weights(q.g, q.field));
    forall path, price | q.Admissible(path, v) && Prices(q.g, q.field, Arcs(path), price)
      ensures dist[v] <= Sum(Arcs(path), price)
    {
      CostIsSum(q.g, q.field, path, price);
    }
  }

  datatype RouteError = InvalidCost(error: SearchError) | NoRoute | Incomplete

  /** The route request without its transport: search, look the target up, reconstruct. */
  method FindRoute(g: Graph, field: CostField, from: string, to: string)
    returns (r: Result<(Route, real), RouteError>)
    ensures r != Err(Incomplete)
    ensures r.Err? && r.error.InvalidCost? <==> Query(g, field, from, 0.0).Blocked()
    ensures r == Err(NoRoute) <==>
      !Query(g, field, from, 0.0).Blocked() && !Reachable(Query(g, field, from, 0.0), to)
    ensures r.Ok? ==>
      && IsRoute(g, from, r.value.0, to)
      && (forall arc | arc in r.value.0.arcs :: g.Usable(arc, field))
      && Total(g, field, r.value.0.arcs) == r.value.1
      && Cheapest(g, field, from, to, r.value.0.arcs, r.value.1)
      && forall p :: g.IsPath(from, p, to) ==> r.value.1 <= g.Cost(p, field)
  {
    var q := Query(g, field, from, 0.0);
    var paths := ShortestPaths(q);
    if paths.Err? {
      return Err(InvalidCost(paths.error));
    }
    var Paths(dist, pred) := paths.value;
    UnboundedReachesAll(q, dist);
    if to !in dist {
      return Err(NoRoute);
    }
    ghost var ranks :| q.PredecessorTree(dist, pred, ranks);
    ChainOfTree(q, dist, pred, ranks, to);
    TreePathIsShortest(q, dist, pred, ranks, to);
    PathGivesRoute(g, field, from, TreePath(pred, ranks, to), to);
    var route := ReconstructRoutingPath(from, to, pred, ranks);
    if route.None? {
      return Err(Incomplete);
    }
    RouteIsCheapest(q, dist, to, route.value.arcs);
    r := Ok((route.value, dist[to]));
  }
}
