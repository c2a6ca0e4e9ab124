/** The routing graph: arc costs, paths, and how arcs are built from imported edges. */
module RoutingGraph {
  import opened Plane
  import opened Wrappers

  datatype Node = Node(lon: real, lat: real, hasCoordinate: bool)

  /** `properties` holds the properties that read as a number, `line` the points of a line geometry. */
  datatype Edge = Edge(id: string, from: string, to: string,
                       cost: Option<real>, distance: Option<real>, properties: map<string, real>,
                       line: seq<Point>)

  datatype Arc = Arc(from: string, to: string, edge: Edge, reverse: bool)

  datatype CostField = ByCost | ByDistance | ByProperty(key: string)

  /** An arc taken from a node; also what the search remembers as a node's predecessor. */
  datatype Hop = Hop(from: string, arc: Arc)

  datatype Graph = Graph(nodes: map<string, Node>, arcs: map<string, seq<Arc>>,
                         haversine: (real, real, real, real) -> real)
  {
    function ArcsOf(node: string): seq<Arc> {
      Lookup(arcs, node)
    }

    function ArcDistance(arc: Arc): Option<real> {
      if arc.from in nodes && arc.to in nodes
         && nodes[arc.from].hasCoordinate && nodes[arc.to].hasCoordinate
      then
        var a, b := nodes[arc.from], nodes[arc.to];
        Some(haversine(a.lon, a.lat, b.lon, b.lat))
      else None
    }

    /** The recorded cost or distance, else the straight distance; a property has no substitute. */
    function ArcCost(arc: Arc, field: CostField): Option<real> {
      match field
      case ByCost => if arc.edge.cost.Some? then arc.edge.cost else ArcDistance(arc)
      case ByDistance => if arc.edge.distance.Some? then arc.edge.distance else ArcDistance(arc)
      case ByProperty(key) =>
        if key in arc.edge.properties then Some(arc.edge.properties[key]) else None
    }

    predicate Usable(arc: Arc, field: CostField) {
      var c := ArcCost(arc, field);
      c.Some? && c.value >= 0.0
    }

    function Weight(arc: Arc, field: CostField): real {
      if Usable(arc, field) then ArcCost(arc, field).value else 0.0
    }

    ghost predicate IsPath(source: string, path: seq<Hop>, target: string) {
      if path == [] then source == target
      else
        var last := path[|path| - 1];
        && last.arc in ArcsOf(last.from)
        && last.arc.to == target
        && IsPath(source, path[..|path| - 1], last.from)
    }

    ghost predicate UsablePath(path: seq<Hop>, field: CostField) {
      forall i | 0 <= i < |path| :: Usable(path[i].arc, field)
    }

    ghost function Cost(path: seq<Hop>, field: CostField): real {
      if path == [] then 0.0
      else Cost(path[..|path| - 1], field) + Weight(path[|path| - 1].arc, field)
    }

    lemma {:induction false} Concatenate(a: string, p: seq<Hop>, b: string, q: seq<Hop>, c: string, field: CostField)
      requires IsPath(a, p, b) && IsPath(b, q, c)
      ensures IsPath(a, p + q, c)
      ensures Cost(p + q, field) == Cost(p, field) + Cost(q, field)
    {
      if q == [] {
        assert p + q == p;
      } else {
        var n := |q| - 1;
        assert (p + q)[..|p + q| - 1] == p + q[..n];
        Concatenate(a, p, b, q[..n], q[n].from, field);
      }
    }
  }

  function Lookup(arcs: map<string, seq<Arc>>, node: string): seq<Arc> {
    if node in arcs then arcs[node] else []
  }

  function AddArc(arcs: map<string, seq<Arc>>, node: string, arc: Arc): map<string, seq<Arc>> {
    arcs[node := Lookup(arcs, node) + [arc]]
  }

  /** The arcs an edge contributes to the list of one node. */
  function ArcsOfEdge(edge: Edge, known: set<string>, directed: bool, node: string): seq<Arc> {
    if !Connects(edge, known) then []
    else
      (if edge.from == node then [Arc(edge.from, edge.to, edge, false)] else []) +
      (if !directed && edge.to == node then [Arc(edge.to, edge.from, edge, true)] else [])
  }

  function ArcsOfEdges(edges: seq<Edge>, known: set<string>, directed: bool, node: string): seq<Arc> {
    if edges == [] then []
    else
      ArcsOfEdges(edges[..|edges| - 1], known, directed, node)
      + ArcsOfEdge(edges[|edges| - 1], known, directed, node)
  }

  ghost predicate Holds(arcs: map<string, seq<Arc>>, edges: seq<Edge>, known: set<string>, directed: bool) {
    forall node :: Lookup(arcs, node) == ArcsOfEdges(edges, known, directed, node)
  }

  ghost predicate Loaded(g: Graph, edges: seq<Edge>, directed: bool) {
    Holds(g.arcs, edges, g.nodes.Keys, directed)
  }

  predicate Connects(edge: Edge, known: set<string>) {
    edge.from in known && edge.to in known
  }

  method BuildArcs(known: set<string>, edges: seq<Edge>, directed: bool) returns (arcs: map<string, seq<Arc>>)
    ensures Holds(arcs, edges, known, directed)
    ensures arcs == map[] <==> forall i | 0 <= i < |edges| :: !Connects(edges[i], known)
  {
    arcs := map[];
    for i := 0 to |edges|
      invariant Holds(arcs, edges[..i], known, directed)
      invariant arcs == map[] <==> forall j | 0 <= j < i :: !Connects(edges[j], known)
    {
      var edge := edges[i];
      LoadOneMore(arcs, edges, i, known, directed);
      if Connects(edge, known) {
        arcs := AddArc(arcs, edge.from, Arc(edge.from, edge.to, edge, false));
        if !directed {
          arcs := AddArc(arcs, edge.to, Arc(edge.to, edge.from, edge, true));
        }
      }
    }
    assert edges[..|edges|] == edges;
  }

  datatype LoadError = NoNodesOrEdges | NoArcs

  method LoadGraph(nodes: map<string, Node>, edges: seq<Edge>, directed: bool,
                   haversine: (real, real, real, real) -> real)
    returns (r: Result<Graph, LoadError>)
    ensures r.Ok? ==> r.value.nodes == nodes && r.value.haversine == haversine && Loaded(r.value, edges, directed)
    ensures r == Err(NoNodesOrEdges) <==> nodes == map[] || edges == []
    ensures r.Ok? <==> nodes != map[] && exists i :: 0 <= i < |edges| && Connects(edges[i], nodes.Keys)
  {
    if nodes == map[] || edges == [] {
      return Err(NoNodesOrEdges);
    }
    var arcs := BuildArcs(nodes.Keys, edges, directed);
    if arcs == map[] {
      return Err(NoArcs);
    }
    r := Ok(Graph(nodes, arcs, haversine));
  }

  function AddEdge(arcs: map<string, seq<Arc>>, e: Edge, known: set<string>, directed: bool): map<string, seq<Arc>> {
    if !Connects(e, known) then arcs
    else
      var forward := AddArc(arcs, e.from, Arc(e.from, e.to, e, false));
      if directed then forward else AddArc(forward, e.to, Arc(e.to, e.from, e, true))
  }

  lemma AddEdgeAppends(arcs: map<string, seq<Arc>>, e: Edge, known: set<string>, directed: bool, node: string)
    ensures Lookup(AddEdge(arcs, e, known, directed), node)
         == Lookup(arcs, node) + ArcsOfEdge(e, known, directed, node)
  {
  }

  lemma LoadOneMore(arcs: map<string, seq<Arc>>, edges: seq<Edge>, i: nat, known: set<string>, directed: bool)
    requires i < |edges| && Holds(arcs, edges[..i], known, directed)
    ensures Holds(AddEdge(arcs, edges[i], known, directed), edges[..i + 1], known, directed)
  {
    assert edges[..i + 1][..i] == edges[..i];
    forall node
      ensures Lookup(AddEdge(arcs, edges[i], known, directed), node)
           == ArcsOfEdges(edges[..i + 1], known, directed, node)
    {
      AddEdgeAppends(arcs, edges[i], known, directed, node);
    }
  }

  /** Which arcs a node has, said without reference to the order of loading. */
  ghost predicate IsArcOf(edges: seq<Edge>, known: set<string>, directed: bool, node: string, arc: Arc) {
    && arc.edge in edges && arc.from in known && arc.to in known
    && arc.from == node
    && if arc.reverse then !directed && arc.from == arc.edge.to && arc.to == arc.edge.from
       else arc.from == arc.edge.from && arc.to == arc.edge.to
  }

  lemma {:induction false} ArcsOfEdgesMembers(edges: seq<Edge>, known: set<string>, directed: bool, node: string, arc: Arc)
    ensures arc in ArcsOfEdges(edges, known, directed, node) <==> IsArcOf(edges, known, directed, node, arc)
  {
    if edges != [] {
      var rest, last := edges[..|edges| - 1], edges[|edges| - 1];
      ArcsOfEdgesMembers(rest, known, directed, node, arc);
      assert edges == rest + [last];
      assert arc in ArcsOfEdge(last, known, directed, node)
        <==> arc.edge == last && IsArcOf([last], known, directed, node, arc);
    }
  }

  function ReverseHop(hop: Hop): Hop {
    Hop(hop.arc.to, Arc(hop.arc.to, hop.arc.from, hop.arc.edge, !hop.arc.reverse))
  }

  function ReversePath(path: seq<Hop>): seq<Hop> {
    if path == [] then [] else [ReverseHop(path[|path| - 1])] + ReversePath(path[..|path| - 1])
  }

  ghost predicate SymmetricDistance(g: Graph) {
    forall a, b, c, d :: g.haversine(a, b, c, d) == g.haversine(c, d, a, b)
  }

  /** In an undirected graph every route can be driven back at the same cost. */
  lemma {:induction false} UndirectedPathsReverse(
    g: Graph, edges: seq<Edge>, field: CostField, source: string, path: seq<Hop>, target: string)
    requires Loaded(g, edges, false) && SymmetricDistance(g)
    requires g.IsPath(source, path, target) && g.UsablePath(path, field)
    ensures g.IsPath(target, ReversePath(path), source)
    ensures g.UsablePath(ReversePath(path), field)
    ensures g.Cost(ReversePath(path), field) == g.Cost(path, field)
  {
    if path != [] {
      var rest, last := path[..|path| - 1], path[|path| - 1];
      UndirectedPathsReverse(g, edges, field, source, rest, last.from);
      ReverseArc(g, edges, field, last);
      PrependHop(g, field, ReverseHop(last), ReversePath(rest), source);
    }
  }

  lemma PrependHop(g: Graph, field: CostField, hop: Hop, path: seq<Hop>, target: string)
    requires hop.arc in g.ArcsOf(hop.from) && g.Usable(hop.arc, field)
    requires g.IsPath(hop.arc.to, path, target) && g.UsablePath(path, field)
    ensures g.IsPath(hop.from, [hop] + path, target) && g.UsablePath([hop] + path, field)
    ensures g.Cost([hop] + path, field) == g.Weight(hop.arc, field) + g.Cost(path, field)
  {
    OneHop(g, hop, field);
    g.Concatenate(hop.from, [hop], hop.arc.to, path, target, field);
  }

  lemma OneHop(g: Graph, hop: Hop, field: CostField)
    requires hop.arc in g.ArcsOf(hop.from)
    ensures g.IsPath(hop.from, [hop], hop.arc.to)
    ensures g.Cost([hop], field) == g.Weight(hop.arc, field)
  {
    assert [hop][..0] == [];
  }

  lemma ReverseArc(g: Graph, edges: seq<Edge>, field: CostField, hop: Hop)
    requires Loaded(g, edges, false) && SymmetricDistance(g)
    requires hop.arc in g.ArcsOf(hop.from)
    ensures ReverseHop(hop).arc in g.ArcsOf(hop.arc.to) && hop.arc.from == hop.from
    ensures g.ArcCost(ReverseHop(hop).arc, field) == g.ArcCost(hop.arc, field)
  {
    var back := ReverseHop(hop).arc;
    ArcsOfEdgesMembers(edges, g.nodes.Keys, false, hop.from, hop.arc);
    ArcsOfEdgesMembers(edges, g.nodes.Keys, false, hop.arc.to, back);
  }
}
