/** What arcs cost, said from the recorded fields of their edges and the positions of their nodes. */
module RoutingCosts {
  import opened Wrappers
  import opened RoutingGraph

  /** The edge records this number under the cost field. */
  predicate Records(field: CostField, edge: Edge, x: real) {
    match field
    case ByCost => edge.cost == Some(x)
    case ByDistance => edge.distance == Some(x)
    case ByProperty(key) => key in edge.properties && edge.properties[key] == x
  }

  /** The edge records nothing under the cost field, and the straight distance may stand in. */
  predicate Unrecorded(field: CostField, edge: Edge) {
    match field
    case ByCost => edge.cost.None?
    case ByDistance => edge.distance.None?
    case ByProperty(_) => false
  }

  /** Both nodes have coordinates, and this is the great-circle distance between them. */
  predicate Apart(g: Graph, arc: Arc, x: real) {
    && arc.from in g.nodes && g.nodes[arc.from].hasCoordinate
    && arc.to in g.nodes && g.nodes[arc.to].hasCoordinate
    && x == g.haversine(g.nodes[arc.from].lon, g.nodes[arc.from].lat, g.nodes[arc.to].lon, g.nodes[arc.to].lat)
  }

  predicate Charges(g: Graph, field: CostField, arc: Arc, x: real) {
    Records(field, arc.edge, x) || (Unrecorded(field, arc.edge) && Apart(g, arc, x))
  }

  /** An arc costs what its edge records, else the distance between its nodes, else nothing is known. */
  lemma CostIs(g: Graph, field: CostField, arc: Arc, x: real)
    ensures g.ArcCost(arc, field) == Some(x) <==> Charges(g, field, arc, x)
  {
  }

  lemma UsableIff(g: Graph, field: CostField, arc: Arc)
    ensures g.Usable(arc, field) <==> exists x :: x >= 0.0 && Charges(g, field, arc, x)
  {
    if x :| x >= 0.0 && Charges(g, field, arc, x) {
      CostIs(g, field, arc, x);
    }
    if g.Usable(arc, field) {
      CostIs(g, field, arc, g.ArcCost(arc, field).value);
    }
  }

  // ---- Sums over arcs ----

  ghost predicate Prices(g: Graph, field: CostField, arcs: seq<Arc>, price: Arc -> real) {
    forall arc | arc in arcs :: Charges(g, field, arc, price(arc))
  }

  function Sum(arcs: seq<Arc>, price: Arc -> real): real {
    if arcs == [] then 0.0 else Sum(arcs[..|arcs| - 1], price) + price(arcs[|arcs| - 1])
  }

  function Arcs(path: seq<Hop>): (arcs: seq<Arc>)
    ensures |arcs| == |path| && forall i | 0 <= i < |path| :: arcs[i] == path[i].arc
  {
    seq(|path|, i requires 0 <= i < |path| => path[i].arc)
  }

  /** What a usable path costs is the sum of what its arcs charge. */
  lemma {:induction false} CostIsSum(g: Graph, field: CostField, path: seq<Hop>, price: Arc -> real)
    requires g.UsablePath(path, field) && Prices(g, field, Arcs(path), price)
    ensures g.Cost(path, field) == Sum(Arcs(path), price)
  {
    if path != [] {
      var front, last := path[..|path| - 1], path[|path| - 1].arc;
      assert Arcs(path)[..|path| - 1] == Arcs(front);
      assert Arcs(path)[|path| - 1] == last;
      CostIsSum(g, field, front, price);
      CostIs(g, field, last, price(last));
    }
  }

  function Weights(g: Graph, field: CostField): Arc -> real {
    (arc: Arc) => g.Weight(arc, field)
  }

  /** Usable arcs always have prices. */
  lemma UsableArePriced(g: Graph, field: CostField, arcs: seq<Arc>)
    requires forall arc | arc in arcs :: g.Usable(arc, field)
    ensures Prices(g, field, arcs, Weights(g, field))
  {
    forall arc | arc in arcs
      ensures Charges(g, field, arc, g.Weight(arc, field))
    {
      CostIs(g, field, arc, g.Weight(arc, field));
    }
  }

  // ---- What makes a route the cheapest ----

  /** The total is what the arcs charge, and no path from one node to the other charges less. */
  ghost predicate Cheapest(g: Graph, field: CostField, from: string, to: string, arcs: seq<Arc>, total: real) {
    && (forall price | Prices(g, field, arcs, price) :: total == Sum(arcs, price))
    && (forall path, price | g.IsPath(from, path, to) && Prices(g, field, Arcs(path), price) ::
          total <= Sum(Arcs(path), price))
  }

  function RecordedCost(): Arc -> real {
    (arc: Arc) => if arc.edge.cost.Some? then arc.edge.cost.value else 0.0
  }

  function RecordedDistance(): Arc -> real {
    (arc: Arc) => if arc.edge.distance.Some? then arc.edge.distance.value else 0.0
  }

  function RecordedProperty(key: string): Arc -> real {
    (arc: Arc) => if key in arc.edge.properties then arc.edge.properties[key] else 0.0
  }

  function Straight(g: Graph): Arc -> real {
    (arc: Arc) =>
      if arc.from in g.nodes && arc.to in g.nodes
      then g.haversine(g.nodes[arc.from].lon, g.nodes[arc.from].lat, g.nodes[arc.to].lon, g.nodes[arc.to].lat)
      else 0.0
  }

  /** By cost: where costs are recorded, the total is their sum and no path of recorded costs has a smaller one. */
  lemma CheapestByCost(g: Graph, from: string, to: string, arcs: seq<Arc>, total: real)
    requires Cheapest(g, ByCost, from, to, arcs, total)
    ensures (forall arc | arc in arcs :: arc.edge.cost.Some?) ==> total == Sum(arcs, RecordedCost())
    ensures forall path | g.IsPath(from, path, to) && (forall arc | arc in Arcs(path) :: arc.edge.cost.Some?) ::
      total <= Sum(Arcs(path), RecordedCost())
  {
    if forall arc | arc in arcs :: arc.edge.cost.Some? {
      assert Prices(g, ByCost, arcs, RecordedCost());
    }
    forall path | g.IsPath(from, path, to) && (forall arc | arc in Arcs(path) :: arc.edge.cost.Some?)
      ensures total <= Sum(Arcs(path), RecordedCost())
    {
      assert Prices(g, ByCost, Arcs(path), RecordedCost());
    }
  }

  lemma CheapestByDistance(g: Graph, from: string, to: string, arcs: seq<Arc>, total: real)
    requires Cheapest(g, ByDistance, from, to, arcs, total)
    ensures (forall arc | arc in arcs :: arc.edge.distance.Some?) ==> total == Sum(arcs, RecordedDistance())
    ensures forall path | g.IsPath(from, path, to) && (forall arc | arc in Arcs(path) :: arc.edge.distance.Some?) ::
      total <= Sum(Arcs(path), RecordedDistance())
  {
    if forall arc | arc in arcs :: arc.edge.distance.Some? {
      assert Prices(g, ByDistance, arcs, RecordedDistance());
    }
    forall path | g.IsPath(from, path, to) && (forall arc | arc in Arcs(path) :: arc.edge.distance.Some?)
      ensures total <= Sum(Arcs(path), RecordedDistance())
    {
      assert Prices(g, ByDistance, Arcs(path), RecordedDistance());
    }
  }

  lemma CheapestByProperty(g: Graph, key: string, from: string, to: string, arcs: seq<Arc>, total: real)
    requires Cheapest(g, ByProperty(key), from, to, arcs, total)
    ensures (forall arc | arc in arcs :: key in arc.edge.properties) ==> total == Sum(arcs, RecordedProperty(key))
    ensures forall path | g.IsPath(from, path, to) && (forall arc | arc in Arcs(path) :: key in arc.edge.properties) ::
      total <= Sum(Arcs(path), RecordedProperty(key))
  {
    if forall arc | arc in arcs :: key in arc.edge.properties {
      assert Prices(g, ByProperty(key), arcs, RecordedProperty(key));
    }
    forall path | g.IsPath(from, path, to) && (forall arc | arc in Arcs(path) :: key in arc.edge.properties)
      ensures total <= Sum(Arcs(path), RecordedProperty(key))
    {
      assert Prices(g, ByProperty(key), Arcs(path), RecordedProperty(key));
    }
  }

  /** Neither recorded, nor without a place to measure from or to. */
  predicate Measured(g: Graph, field: CostField, arc: Arc) {
    && Unrecorded(field, arc.edge)
    && arc.from in g.nodes && g.nodes[arc.from].hasCoordinate
    && arc.to in g.nodes && g.nodes[arc.to].hasCoordinate
  }

  /** Where nothing is recorded, great-circle distances between nodes count, longitude before latitude. */
  lemma CheapestByPosition(g: Graph, field: CostField, from: string, to: string, arcs: seq<Arc>, total: real)
    requires Cheapest(g, field, from, to, arcs, total)
    ensures (forall arc | arc in arcs :: Measured(g, field, arc)) ==> total == Sum(arcs, Straight(g))
    ensures forall path | g.IsPath(from, path, to) && (forall arc | arc in Arcs(path) :: Measured(g, field, arc)) ::
      total <= Sum(Arcs(path), Straight(g))
  {
    if forall arc | arc in arcs :: Measured(g, field, arc) {
      assert Prices(g, field, arcs, Straight(g));
    }
    forall path | g.IsPath(from, path, to) && (forall arc | arc in Arcs(path) :: Measured(g, field, arc))
      ensures total <= Sum(Arcs(path), Straight(g))
    {
      assert Prices(g, field, Arcs(path), Straight(g));
    }
  }
}
