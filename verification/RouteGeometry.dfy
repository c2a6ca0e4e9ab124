/** The line drawn for a route: each arc's points in driving direction, stitched where arcs meet. */
module RouteGeometry {
  import opened Plane
  import opened Wrappers
  import opened RoutingGraph
  import opened RoutingPath

  /** How far apart two points are drawn. */
  datatype Ruler = Ruler(apart: (Point, Point) -> real)

  /** What a segment adds to a line that ends at p: a common point is drawn once. */
  function Rest(p: Point, segment: seq<Point>): seq<Point>
    requires segment != []
  {
    if p == segment[0] then segment[1..] else segment
  }

  function Join(line: seq<Point>, segment: seq<Point>): seq<Point> {
    if line == [] then segment
    else if segment == [] then line
    else line + Rest(line[|line| - 1], segment)
  }

  /** Back to front. */
  function Flip<T>(s: seq<T>): (r: seq<T>)
    ensures |r| == |s|
    ensures s != [] ==> r[0] == s[|s| - 1] && r[|s| - 1] == s[0]
  {
    if s == [] then [] else [s[|s| - 1]] + Flip(s[..|s| - 1])
  }

  lemma {:induction false} FlipAt<T>(s: seq<T>, i: nat)
    requires i < |s|
    ensures Flip(s)[i] == s[|s| - 1 - i]
  {
    if i > 0 {
      FlipAt(s[..|s| - 1], i - 1);
    }
  }

  lemma FlipIsReversed<T>(s: seq<T>)
    ensures Flip(s) == Reversed(s)
  {
    forall i | 0 <= i < |s|
      ensures Flip(s)[i] == s[|s| - 1 - i]
    {
      FlipAt(s, i);
    }
  }

  lemma {:induction false} FlipAppend<T>(a: seq<T>, b: seq<T>)
    ensures Flip(a + b) == Flip(b) + Flip(a)
  {
    if b == [] {
      assert a + b == a;
    } else {
      assert (a + b)[..|a + b| - 1] == a + b[..|b| - 1];
      FlipAppend(a, b[..|b| - 1]);
    }
  }

  lemma {:induction false} FlipTwice<T>(s: seq<T>)
    ensures Flip(Flip(s)) == s
  {
    if s != [] {
      var front, last := s[..|s| - 1], s[|s| - 1];
      FlipTwice(front);
      FlipAppend([last], Flip(front));
      assert [last][..0] == [];
      assert Flip([last]) == [last];
    }
  }

  function Stitch(segments: seq<seq<Point>>): seq<Point> {
    if segments == [] then [] else Join(Stitch(segments[..|segments| - 1]), segments[|segments| - 1])
  }

  lemma JoinLast(a: seq<Point>, b: seq<Point>)
    requires b != []
    ensures var j := Join(a, b); j != [] && j[|j| - 1] == b[|b| - 1]
  {
  }

  lemma RestAppend(p: Point, b: seq<Point>, more: seq<Point>)
    requires b != []
    ensures Rest(p, b + more) == Rest(p, b) + more
  {
    assert (b + more)[1..] == b[1..] + more;
  }

  lemma JoinAssociative(a: seq<Point>, b: seq<Point>, c: seq<Point>)
    ensures Join(Join(a, b), c) == Join(a, Join(b, c))
  {
    if a != [] && b != [] && c != [] {
      var p, back := a[|a| - 1], Rest(b[|b| - 1], c);
      JoinLast(a, b);
      RestAppend(p, b, back);
      assert (a + Rest(p, b)) + back == a + (Rest(p, b) + back);
    }
  }

  lemma {:induction false} StitchFromFront(first: seq<Point>, rest: seq<seq<Point>>)
    ensures Stitch([first] + rest) == Join(first, Stitch(rest))
  {
    var all := [first] + rest;
    if rest == [] {
      assert all[..0] == [];
      assert Stitch(all) == Join([], first);
      assert Join([], first) == first && Join(first, []) == first;
    } else {
      assert all[..|all| - 1] == [first] + rest[..|rest| - 1];
      StitchFromFront(first, rest[..|rest| - 1]);
      JoinAssociative(first, Stitch(rest[..|rest| - 1]), rest[|rest| - 1]);
    }
  }

  lemma ReverseJoin(a: seq<Point>, b: seq<Point>)
    ensures Flip(Join(a, b)) == Join(Flip(b), Flip(a))
  {
    if a != [] && b != [] {
      var p := a[|a| - 1];
      FlipAppend(a, Rest(p, b));
      if p == b[0] {
        assert b == [p] + b[1..] && [p][..0] == [];
        FlipAppend([p], b[1..]);
        assert Flip([p]) == [p];
        assert Flip(a) == [p] + Flip(a)[1..];
        assert Flip(b[1..]) + ([p] + Flip(a)[1..]) == (Flip(b[1..]) + [p]) + Flip(a)[1..];
      }
    }
  }

  /** The segments in the opposite order, each in the opposite direction. */
  function Backwards(segments: seq<seq<Point>>): seq<seq<Point>> {
    if segments == [] then []
    else [Flip(segments[|segments| - 1])] + Backwards(segments[..|segments| - 1])
  }

  /** Stitching does not care about the direction of travel. */
  lemma {:induction false} StitchBackwards(segments: seq<seq<Point>>)
    ensures Stitch(Backwards(segments)) == Flip(Stitch(segments))
  {
    if segments != [] {
      var front, last := segments[..|segments| - 1], segments[|segments| - 1];
      StitchBackwards(front);
      StitchFromFront(Flip(last), Backwards(front));
      ReverseJoin(Stitch(front), last);
    }
  }

  predicate RunsThrough(line: seq<Point>, segment: seq<Point>, end: nat) {
    |segment| <= end <= |line| && line[end - |segment|..end] == segment
  }

  lemma JoinRunsThrough(line: seq<Point>, segment: seq<Point>)
    ensures line <= Join(line, segment)
    ensures RunsThrough(Join(line, segment), segment, |Join(line, segment)|)
  {
  }

  lemma LongerRunsThrough(line: seq<Point>, longer: seq<Point>, segment: seq<Point>, end: nat)
    requires RunsThrough(line, segment, end) && line <= longer
    ensures RunsThrough(longer, segment, end)
  {
    assert longer[..|line|] == line;
  }

  lemma OneMoreSegment(segments: seq<seq<Point>>)
    requires segments != []
    ensures var front, last := Stitch(segments[..|segments| - 1]), segments[|segments| - 1];
      front <= Stitch(segments) && RunsThrough(Stitch(segments), last, |Stitch(segments)|)
  {
    JoinRunsThrough(Stitch(segments[..|segments| - 1]), segments[|segments| - 1]);
  }

  /** The next segment adds all its points but a first one that is drawn already. */
  lemma StitchAdvances(segments: seq<seq<Point>>, k: nat)
    requires k < |segments|
    ensures var before, after, segment := Stitch(segments[..k]), Stitch(segments[..k + 1]), segments[k];
      && before <= after
      && |after| == |before| + |segment|
           - if before != [] && segment != [] && before[|before| - 1] == segment[0] then 1 else 0
  {
    assert segments[..k + 1][..k] == segments[..k];
  }

  /** The stitched line runs through every segment, the k-th ending where the first k + 1 segments end. */
  lemma {:induction false} StitchRunsThrough(segments: seq<seq<Point>>, k: nat)
    requires k < |segments|
    ensures RunsThrough(Stitch(segments), segments[k], |Stitch(segments[..k + 1])|)
  {
    var front := segments[..|segments| - 1];
    OneMoreSegment(segments);
    if k < |front| {
      StitchRunsThrough(front, k);
      assert front[..k + 1] == segments[..k + 1];
      LongerRunsThrough(Stitch(front), Stitch(segments), segments[k], |Stitch(segments[..k + 1])|);
    } else {
      assert segments[..k + 1] == segments;
    }
  }

  // ---- The points of one arc ----

  predicate Placed(g: Graph, node: string) {
    node in g.nodes && g.nodes[node].hasCoordinate
  }

  function At(g: Graph, node: string): Point
    requires node in g.nodes
  {
    Point(g.nodes[node].lon, g.nodes[node].lat)
  }

  /** How badly a line fits if driven as it is recorded. */
  function Misfit(ruler: Ruler, line: seq<Point>, from: Point, to: Point): real
    requires line != []
  {
    ruler.apart(line[0], from) + ruler.apart(line[|line| - 1], to)
  }

  /** The recorded line in the direction that fits better, else the straight connection. */
  function ArcLine(g: Graph, ruler: Ruler, arc: Arc): seq<Point> {
    var line := arc.edge.line;
    if !Placed(g, arc.from) || !Placed(g, arc.to) then if |line| < 2 then [] else line
    else
      var from, to := At(g, arc.from), At(g, arc.to);
      if |line| < 2 then [from, to]
      else if Misfit(ruler, line, to, from) < Misfit(ruler, line, from, to) then Flip(line)
      else line
  }

  /** Without a recorded line, an arc is drawn from its first node straight to its last, if both have coordinates. */
  lemma StraightArc(g: Graph, ruler: Ruler, arc: Arc)
    requires |arc.edge.line| < 2
    ensures ArcLine(g, ruler, arc) ==
      if arc.from in g.nodes && g.nodes[arc.from].hasCoordinate && arc.to in g.nodes && g.nodes[arc.to].hasCoordinate
      then [Point(g.nodes[arc.from].lon, g.nodes[arc.from].lat), Point(g.nodes[arc.to].lon, g.nodes[arc.to].lat)]
      else []
  {
  }

  /**
   A recorded line is drawn as it is or in reverse. Its ends are then no farther from the arc's nodes than
   in the other direction, and it is reversed only if they are nearer.
   */
  lemma ArcLineFitsBest(g: Graph, ruler: Ruler, arc: Arc)
    requires |arc.edge.line| >= 2
    ensures var line := ArcLine(g, ruler, arc);
      && line in {arc.edge.line, Flip(arc.edge.line)}
      && if arc.from in g.nodes && g.nodes[arc.from].hasCoordinate && arc.to in g.nodes && g.nodes[arc.to].hasCoordinate
         then
           var from := Point(g.nodes[arc.from].lon, g.nodes[arc.from].lat);
           var to := Point(g.nodes[arc.to].lon, g.nodes[arc.to].lat);
           var chosen, other := ruler.apart(line[0], from) + ruler.apart(line[|line| - 1], to),
                               ruler.apart(line[|line| - 1], from) + ruler.apart(line[0], to);
           chosen <= other && (line != arc.edge.line ==> chosen < other)
         else line == arc.edge.line
  {
  }

  /** No two different points are zero apart. */
  ghost predicate Proper(ruler: Ruler) {
    forall p, q :: ruler.apart(p, q) >= 0.0 && (ruler.apart(p, q) == 0.0 <==> p == q)
  }

  /** The line runs from one node's position to the other's. */
  predicate Joins(g: Graph, line: seq<Point>, from: string, to: string) {
    && |line| >= 2 && from in g.nodes && to in g.nodes
    && line[0] == Point(g.nodes[from].lon, g.nodes[from].lat)
    && line[|line| - 1] == Point(g.nodes[to].lon, g.nodes[to].lat)
  }

  /** A recorded line that joins an arc's nodes, in whichever direction, is drawn in the arc's own. */
  lemma ArcLineJoins(g: Graph, ruler: Ruler, arc: Arc)
    requires Proper(ruler) && Placed(g, arc.from) && Placed(g, arc.to)
    requires |arc.edge.line| >= 2 ==> Joins(g, arc.edge.line, arc.from, arc.to) || Joins(g, arc.edge.line, arc.to, arc.from)
    ensures Joins(g, ArcLine(g, ruler, arc), arc.from, arc.to)
  {
  }

  /** The direction of a recorded line cannot be told from the ends of its edge. */
  predicate Undecided(g: Graph, ruler: Ruler, arc: Arc) {
    var line := arc.edge.line;
    && |line| >= 2
    && (Placed(g, arc.from) && Placed(g, arc.to) ==>
          Misfit(ruler, line, At(g, arc.to), At(g, arc.from)) == Misfit(ruler, line, At(g, arc.from), At(g, arc.to)))
  }

  function Opposite(arc: Arc): Arc {
    Arc(arc.to, arc.from, arc.edge, !arc.reverse)
  }

  /** Driven back, an arc is drawn in reverse, unless its direction is undecided and that matters. */
  lemma OppositeIsReversedIff(g: Graph, ruler: Ruler, arc: Arc)
    ensures ArcLine(g, ruler, Opposite(arc)) == Flip(ArcLine(g, ruler, arc))
      <==> Undecided(g, ruler, arc) ==> Flip(arc.edge.line) == arc.edge.line
  {
    if |arc.edge.line| < 2 {
      ShortLineReverses(g, ruler, arc);
    } else if !Undecided(g, ruler, arc) {
      OneIsTurned(g, ruler, arc);
      EitherWay(arc.edge.line, ArcLine(g, ruler, arc), ArcLine(g, ruler, Opposite(arc)));
    }
  }

  /** An instance: between nodes without coordinates, a recorded line of two points is drawn the same both ways. */
  lemma UndecidedLineIsKept(ruler: Ruler, haversine: (real, real, real, real) -> real)
    ensures var line := [Point(0.0, 0.0), Point(1.0, 0.0)];
      var arc := Arc("a", "b", Edge("e", "a", "b", None, None, map[], line), false);
      var nowhere := Node(0.0, 0.0, false);
      var g := Graph(map["a" := nowhere, "b" := nowhere], map["a" := [arc]], haversine);
      && Loaded(g, [arc.edge], true)
      && ArcLine(g, ruler, arc) == line && ArcLine(g, ruler, Opposite(arc)) == line && Flip(line) != line
  {
  }

  lemma ShortLineReverses(g: Graph, ruler: Ruler, arc: Arc)
    requires |arc.edge.line| < 2
    ensures ArcLine(g, ruler, Opposite(arc)) == Flip(ArcLine(g, ruler, arc))
  {
  }

  lemma OneIsTurned(g: Graph, ruler: Ruler, arc: Arc)
    requires |arc.edge.line| >= 2 && !Undecided(g, ruler, arc)
    ensures var line, x, y := arc.edge.line, ArcLine(g, ruler, arc), ArcLine(g, ruler, Opposite(arc));
      (x == line && y == Flip(line)) || (x == Flip(line) && y == line)
  {
  }

  lemma EitherWay(line: seq<Point>, x: seq<Point>, y: seq<Point>)
    requires (x == line && y == Flip(line)) || (x == Flip(line) && y == line)
    ensures y == Flip(x)
  {
    FlipTwice(line);
  }

  // ---- The whole route ----

  function Segments(g: Graph, ruler: Ruler, arcs: seq<Arc>): seq<seq<Point>> {
    seq(|arcs|, i requires 0 <= i < |arcs| => ArcLine(g, ruler, arcs[i]))
  }

  function NodePoints(g: Graph, nodes: seq<string>): seq<Point> {
    if nodes == [] then []
    else
      var last := nodes[|nodes| - 1];
      NodePoints(g, nodes[..|nodes| - 1]) + if Placed(g, last) then [At(g, last)] else []
  }

  /** The drawn line; a route without any arc points falls back on its nodes. */
  function RouteLine(g: Graph, ruler: Ruler, route: Route): seq<Point> {
    var line := Stitch(Segments(g, ruler, route.arcs));
    if line == [] then NodePoints(g, route.nodes) else line
  }

  method ArcCoordinates(g: Graph, ruler: Ruler, arc: Arc) returns (line: seq<Point>)
    ensures line == ArcLine(g, ruler, arc)
  {
    line := arc.edge.line;
    var placed := Placed(g, arc.from) && Placed(g, arc.to);
    if |line| < 2 {
      return if placed then [At(g, arc.from), At(g, arc.to)] else [];
    }
    if placed && Misfit(ruler, line, At(g, arc.to), At(g, arc.from)) < Misfit(ruler, line, At(g, arc.from), At(g, arc.to)) {
      FlipIsReversed(line);
      line := ReverseList(line);
    }
  }

  method DrawRoute(g: Graph, ruler: Ruler, route: Route) returns (line: seq<Point>)
    ensures line == RouteLine(g, ruler, route)
  {
    line := [];
    for i := 0 to |route.arcs|
      invariant line == Stitch(Segments(g, ruler, route.arcs[..i]))
    {
      var segment := ArcCoordinates(g, ruler, route.arcs[i]);
      assert Segments(g, ruler, route.arcs[..i + 1]) == Segments(g, ruler, route.arcs[..i]) + [segment];
      StitchOneMore(Segments(g, ruler, route.arcs[..i]), segment);
      if segment != [] {
        if line != [] && line[|line| - 1] == segment[0] {
          segment := segment[1..];
        }
        line := line + segment;
      }
    }
    assert route.arcs[..|route.arcs|] == route.arcs;
    if line == [] {
      for i := 0 to |route.nodes|
        invariant line == NodePoints(g, route.nodes[..i])
      {
        assert route.nodes[..i + 1][..i] == route.nodes[..i];
        if Placed(g, route.nodes[i]) {
          line := line + [At(g, route.nodes[i])];
        }
      }
      assert route.nodes[..|route.nodes|] == route.nodes;
    }
  }

  lemma StitchOneMore(segments: seq<seq<Point>>, segment: seq<Point>)
    ensures Stitch(segments + [segment]) == Join(Stitch(segments), segment)
  {
    assert (segments + [segment])[..|segments|] == segments;
  }

  // ---- A route passes its nodes ----

  function PointCount(segments: seq<seq<Point>>): nat {
    if segments == [] then 0 else PointCount(segments[..|segments| - 1]) + |segments[|segments| - 1]|
  }

  /** All arcs are drawn between their nodes. */
  ghost predicate AllJoin(g: Graph, ruler: Ruler, arcs: seq<Arc>) {
    forall i | 0 <= i < |arcs| :: Joins(g, ArcLine(g, ruler, arcs[i]), arcs[i].from, arcs[i].to)
  }

  /** Each arc starts at the node where the one before it ended. */
  ghost predicate Contiguous(nodes: seq<string>, arcs: seq<Arc>) {
    |nodes| == |arcs| + 1 && forall i | 0 <= i < |arcs| :: arcs[i].from == nodes[i] && arcs[i].to == nodes[i + 1]
  }

  lemma RouteIsContiguous(g: Graph, edges: seq<Edge>, directed: bool, from: string, route: Route, to: string)
    requires Loaded(g, edges, directed) && IsRoute(g, from, route, to)
    ensures Contiguous(route.nodes, route.arcs)
  {
    forall i | 0 <= i < |route.arcs|
      ensures route.arcs[i].from == route.nodes[i]
    {
      ArcsOfEdgesMembers(edges, g.nodes.Keys, directed, route.nodes[i], route.arcs[i]);
    }
  }

  lemma SegmentsPrefix(g: Graph, ruler: Ruler, arcs: seq<Arc>, k: nat)
    requires k <= |arcs|
    ensures Segments(g, ruler, arcs)[..k] == Segments(g, ruler, arcs[..k])
  {
  }

  /** After the first arcs the line ends at the node they lead to, and every joint was drawn once. */
  lemma {:induction false} ReachesNode(g: Graph, ruler: Ruler, nodes: seq<string>, arcs: seq<Arc>)
    requires Contiguous(nodes, arcs) && AllJoin(g, ruler, arcs) && arcs != []
    ensures var segments := Segments(g, ruler, arcs);
      Joins(g, Stitch(segments), nodes[0], nodes[|arcs|]) && |Stitch(segments)| + |arcs| == PointCount(segments) + 1
  {
    var k := |arcs| - 1;
    var segments := Segments(g, ruler, arcs);
    SegmentsPrefix(g, ruler, arcs, k);
    assert Joins(g, segments[k], nodes[k], nodes[k + 1]);
    if k > 0 {
      ReachesNode(g, ruler, nodes[..k + 1], arcs[..k]);
      JoinsOn(g, Stitch(segments[..k]), segments[k], nodes[0], nodes[k], nodes[k + 1]);
    } else {
      assert segments[..0] == [];
    }
  }

  /** Two lines that meet at a node make one, in which that node is drawn once. */
  lemma JoinsOn(g: Graph, line: seq<Point>, segment: seq<Point>, a: string, b: string, c: string)
    requires Joins(g, line, a, b) && Joins(g, segment, b, c)
    ensures Joins(g, Join(line, segment), a, c) && |Join(line, segment)| + 1 == |line| + |segment|
  {
  }

  /**
   The line drawn for a route whose arcs are drawn between their nodes runs from its first node to its last
   and passes every node on the way where that node's arcs meet.
   */
  lemma RouteVisitsNodes(g: Graph, edges: seq<Edge>, directed: bool, ruler: Ruler, from: string, route: Route, to: string,
                         k: nat)
    requires Loaded(g, edges, directed) && IsRoute(g, from, route, to)
    requires AllJoin(g, ruler, route.arcs) && 0 < k <= |route.arcs|
    ensures var line, segments := RouteLine(g, ruler, route), Segments(g, ruler, route.arcs);
      && Joins(g, line, from, to)
      && |line| + |route.arcs| == PointCount(segments) + 1
      && Stitch(segments[..k]) <= line && Joins(g, Stitch(segments[..k]), from, route.nodes[k])
  {
    RouteIsContiguous(g, edges, directed, from, route, to);
    var segments := Segments(g, ruler, route.arcs);
    ReachesNode(g, ruler, route.nodes, route.arcs);
    ReachesNode(g, ruler, route.nodes[..k + 1], route.arcs[..k]);
    SegmentsPrefix(g, ruler, route.arcs, k);
    StitchOnlyGrows(segments, k);
  }

  lemma {:induction false} StitchOnlyGrows(segments: seq<seq<Point>>, k: nat)
    requires k <= |segments|
    ensures Stitch(segments[..k]) <= Stitch(segments)
  {
    if k < |segments| {
      var front := segments[..|segments| - 1];
      StitchOnlyGrows(front, k);
      assert front[..k] == segments[..k];
      OneMoreSegment(segments);
    } else {
      assert segments[..k] == segments;
    }
  }

  /** The line is the nodes' positions, one by one. */
  ghost predicate Traces(g: Graph, line: seq<Point>, nodes: seq<string>) {
    && |line| == |nodes|
    && forall i | 0 <= i < |nodes| ::
         nodes[i] in g.nodes && line[i] == Point(g.nodes[nodes[i]].lon, g.nodes[nodes[i]].lat)
  }

  lemma {:induction false} StraightStitch(g: Graph, ruler: Ruler, nodes: seq<string>, arcs: seq<Arc>)
    requires Contiguous(nodes, arcs) && arcs != []
    requires forall i | 0 <= i < |nodes| :: Placed(g, nodes[i])
    requires forall i | 0 <= i < |arcs| :: |arcs[i].edge.line| < 2
    ensures Traces(g, Stitch(Segments(g, ruler, arcs)), nodes)
  {
    var k := |arcs| - 1;
    var segments := Segments(g, ruler, arcs);
    SegmentsPrefix(g, ruler, arcs, k);
    assert Placed(g, nodes[k]) && Placed(g, nodes[k + 1]);
    StraightArc(g, ruler, arcs[k]);
    if k > 0 {
      StraightStitch(g, ruler, nodes[..k + 1], arcs[..k]);
    } else {
      assert segments[..0] == [];
    }
  }

  lemma {:induction false} PlacedPoints(g: Graph, nodes: seq<string>)
    requires forall i | 0 <= i < |nodes| :: Placed(g, nodes[i])
    ensures Traces(g, NodePoints(g, nodes), nodes)
  {
    if nodes != [] {
      PlacedPoints(g, nodes[..|nodes| - 1]);
    }
  }

  /** Without recorded lines, the line drawn for a route is its nodes' positions, in order and each once. */
  lemma StraightRoute(g: Graph, edges: seq<Edge>, directed: bool, ruler: Ruler, from: string, route: Route, to: string)
    requires Loaded(g, edges, directed) && IsRoute(g, from, route, to)
    requires forall i | 0 <= i < |route.nodes| :: Placed(g, route.nodes[i])
    requires forall i | 0 <= i < |route.arcs| :: |route.arcs[i].edge.line| < 2
    ensures Traces(g, RouteLine(g, ruler, route), route.nodes)
  {
    RouteIsContiguous(g, edges, directed, from, route, to);
    PlacedPoints(g, route.nodes);
    if route.arcs != [] {
      StraightStitch(g, ruler, route.nodes, route.arcs);
    }
  }

  /** A route none of whose arcs can be drawn is drawn through those of its nodes that have coordinates. */
  lemma {:induction false} NodePointsAre(g: Graph, nodes: seq<string>, i: nat)
    requires i < |nodes| && nodes[i] in g.nodes && g.nodes[nodes[i]].hasCoordinate
    ensures |NodePoints(g, nodes[..i])| < |NodePoints(g, nodes)|
    ensures NodePoints(g, nodes)[|NodePoints(g, nodes[..i])|] == Point(g.nodes[nodes[i]].lon, g.nodes[nodes[i]].lat)
  {
    var front := nodes[..|nodes| - 1];
    if i < |front| {
      NodePointsAre(g, front, i);
      assert front[..i] == nodes[..i];
    } else {
      assert front == nodes[..i];
    }
  }

  function OppositeArcs(arcs: seq<Arc>): seq<Arc> {
    if arcs == [] then [] else [Opposite(arcs[|arcs| - 1])] + OppositeArcs(arcs[..|arcs| - 1])
  }

  function ReverseRoute(route: Route): Route {
    Route(Flip(route.nodes), OppositeArcs(route.arcs))
  }

  ghost predicate Decided(g: Graph, ruler: Ruler, arcs: seq<Arc>) {
    forall i | 0 <= i < |arcs| :: Undecided(g, ruler, arcs[i]) ==> Flip(arcs[i].edge.line) == arcs[i].edge.line
  }

  lemma SegmentsAppend(g: Graph, ruler: Ruler, a: seq<Arc>, b: seq<Arc>)
    ensures Segments(g, ruler, a + b) == Segments(g, ruler, a) + Segments(g, ruler, b)
  {
  }

  /** Driven back, all arcs of a route are drawn in reverse, last to first, exactly when all are decided. */
  lemma {:induction false} SegmentsReversedIff(g: Graph, ruler: Ruler, arcs: seq<Arc>)
    ensures Segments(g, ruler, OppositeArcs(arcs)) == Backwards(Segments(g, ruler, arcs)) <==> Decided(g, ruler, arcs)
  {
    if arcs != [] {
      var front, last := arcs[..|arcs| - 1], arcs[|arcs| - 1];
      SegmentsReversedIff(g, ruler, front);
      OppositeIsReversedIff(g, ruler, last);
      DecidedAppend(g, ruler, front, last);
      assert arcs == front + [last];
      SegmentsAppend(g, ruler, front, [last]);
      SegmentsAppend(g, ruler, [Opposite(last)], OppositeArcs(front));
      var there, mine := Segments(g, ruler, front), ArcLine(g, ruler, last);
      var back, its := Segments(g, ruler, OppositeArcs(front)), ArcLine(g, ruler, Opposite(last));
      assert Segments(g, ruler, [last]) == [mine] && Segments(g, ruler, [Opposite(last)]) == [its];
      assert (there + [mine])[..|front|] == there;
      ConsEqualIff(its, back, Flip(mine), Backwards(there));
    }
  }

  lemma DecidedAppend(g: Graph, ruler: Ruler, front: seq<Arc>, last: Arc)
    ensures Decided(g, ruler, front + [last]) <==>
      Decided(g, ruler, front) && (Undecided(g, ruler, last) ==> Flip(last.edge.line) == last.edge.line)
  {
    var arcs := front + [last];
    assert arcs[|front|] == last;
    assert forall i | 0 <= i < |front| :: arcs[i] == front[i];
  }

  lemma ConsEqualIff<T>(x: T, a: seq<T>, y: T, b: seq<T>)
    ensures [x] + a == [y] + b <==> x == y && a == b
  {
    if [x] + a == [y] + b {
      assert ([x] + a)[0] == x && ([y] + b)[0] == y;
      assert ([x] + a)[1..] == a && ([y] + b)[1..] == b;
    }
  }

  lemma NodePointsAppend(g: Graph, a: seq<string>, b: seq<string>)
    ensures NodePoints(g, a + b) == NodePoints(g, a) + NodePoints(g, b)
  {
    if b == [] {
      assert a + b == a;
    } else {
      assert (a + b)[..|a + b| - 1] == a + b[..|b| - 1];
      NodePointsAppend(g, a, b[..|b| - 1]);
    }
  }

  lemma {:induction false} NodePointsReversed(g: Graph, nodes: seq<string>)
    ensures NodePoints(g, Flip(nodes)) == Flip(NodePoints(g, nodes))
  {
    if nodes != [] {
      var front, last := nodes[..|nodes| - 1], nodes[|nodes| - 1];
      NodePointsReversed(g, front);
      NodePointsAppend(g, [last], Flip(front));
      assert [last][..0] == [];
      var mine := NodePoints(g, [last]);
      FlipAppend(NodePoints(g, front), mine);
      assert mine != [] ==> mine[..0] == [] && Flip(mine) == mine;
    }
  }

  /** A route driven back is drawn as the same line in reverse, as long as every direction is decided. */
  lemma RouteDrivenBack(g: Graph, ruler: Ruler, route: Route)
    requires Decided(g, ruler, route.arcs)
    ensures RouteLine(g, ruler, ReverseRoute(route)) == Flip(RouteLine(g, ruler, route))
  {
    SegmentsReversedIff(g, ruler, route.arcs);
    StitchBackwards(Segments(g, ruler, route.arcs));
    NodePointsReversed(g, route.nodes);
  }
}
