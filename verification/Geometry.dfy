/**
 GeoJSON geometries (section 3.1 of RFC 7946) as exports handle them: loosely typed coordinates,
 exploding nested geometries, bounding boxes, and simplification.
 */
module Geometry {
  import opened Wrappers
  import opened Plane
  import opened LineSimplify
  import opened LineRings

  datatype Json = Num(n: real) | Arr(items: seq<Json>) | Other

  datatype Kind =
    Unknown | PointKind | MultiPoint | LineString | MultiLineString | Polygon | MultiPolygon | Collection

  /** A member of a collection that is no object counts, like an unknown type, for nothing. */
  datatype Geometry = Geometry(kind: Kind, coordinates: Json, children: seq<Geometry>)

  // ---- Reading coordinates: what does not fit is skipped ----

  function ToPoint(v: Json): Option<Point> {
    if v.Arr? && |v.items| >= 2 && v.items[0].Num? && v.items[1].Num?
    then Some(Point(v.items[0].n, v.items[1].n))
    else None
  }

  function PointsIn(items: seq<Json>): seq<Point> {
    if items == [] then []
    else
      var p := ToPoint(items[0]);
      (if p.Some? then [p.value] else []) + PointsIn(items[1..])
  }

  function ToPointList(v: Json): seq<Point> {
    if v.Arr? then PointsIn(v.items) else []
  }

  predicate NonEmpty(lines: seq<seq<Point>>) {
    forall i | 0 <= i < |lines| :: lines[i] != []
  }

  predicate NonEmptyPolygons(polygons: seq<seq<seq<Point>>>) {
    forall i | 0 <= i < |polygons| :: polygons[i] != [] && NonEmpty(polygons[i])
  }

  function LinesIn(items: seq<Json>): (r: seq<seq<Point>>)
    ensures NonEmpty(r)
  {
    if items == [] then []
    else
      var line := ToPointList(items[0]);
      (if line != [] then [line] else []) + LinesIn(items[1..])
  }

  function ToLineList(v: Json): (r: seq<seq<Point>>)
    ensures NonEmpty(r)
  {
    if v.Arr? then LinesIn(v.items) else []
  }

  function PolygonsIn(items: seq<Json>): (r: seq<seq<seq<Point>>>)
    ensures NonEmptyPolygons(r)
  {
    if items == [] then []
    else
      var polygon := ToLineList(items[0]);
      (if polygon != [] then [polygon] else []) + PolygonsIn(items[1..])
  }

  function ToPolygonList(v: Json): (r: seq<seq<seq<Point>>>)
    ensures NonEmptyPolygons(r)
  {
    if v.Arr? then PolygonsIn(v.items) else []
  }

  /** A position is an array that begins with its x and its y. */
  lemma PositionRead(v: Json, x: real, y: real)
    ensures ToPoint(v) == Some(Point(x, y)) <==> v.Arr? && |v.items| >= 2 && v.items[0] == Num(x) && v.items[1] == Num(y)
  {
  }

  lemma {:induction false} PointsRead(a: seq<Json>, b: seq<Json>)
    ensures PointsIn(a + b) == PointsIn(a) + PointsIn(b)
  {
    if a == [] {
      assert a + b == b;
    } else {
      var p := ToPoint(a[0]);
      var first := if p.Some? then [p.value] else [];
      assert (a + b)[1..] == a[1..] + b;
      PointsRead(a[1..], b);
      assert first + (PointsIn(a[1..]) + PointsIn(b)) == (first + PointsIn(a[1..])) + PointsIn(b);
    }
  }

  lemma {:induction false} LinesRead(a: seq<Json>, b: seq<Json>)
    ensures LinesIn(a + b) == LinesIn(a) + LinesIn(b)
  {
    if a == [] {
      assert a + b == b;
    } else {
      var line := ToPointList(a[0]);
      var first := if line != [] then [line] else [];
      assert (a + b)[1..] == a[1..] + b;
      LinesRead(a[1..], b);
      assert first + (LinesIn(a[1..]) + LinesIn(b)) == (first + LinesIn(a[1..])) + LinesIn(b);
    }
  }

  lemma {:induction false} PolygonsRead(a: seq<Json>, b: seq<Json>)
    ensures PolygonsIn(a + b) == PolygonsIn(a) + PolygonsIn(b)
  {
    if a == [] {
      assert a + b == b;
    } else {
      var polygon := ToLineList(a[0]);
      var first := if polygon != [] then [polygon] else [];
      assert (a + b)[1..] == a[1..] + b;
      PolygonsRead(a[1..], b);
      assert first + (PolygonsIn(a[1..]) + PolygonsIn(b)) == (first + PolygonsIn(a[1..])) + PolygonsIn(b);
    }
  }

  /** Every item is read by itself, in order, whatever stands around it. */
  lemma ItemsRead(a: seq<Json>, b: seq<Json>)
    ensures PointsIn(a + b) == PointsIn(a) + PointsIn(b)
    ensures LinesIn(a + b) == LinesIn(a) + LinesIn(b)
    ensures PolygonsIn(a + b) == PolygonsIn(a) + PolygonsIn(b)
  {
    PointsRead(a, b);
    LinesRead(a, b);
    PolygonsRead(a, b);
  }

  /** An item that does not read as what is wanted, or as nothing but an empty list, is skipped. */
  lemma ItemRead(v: Json)
    ensures PointsIn([v]) == if ToPoint(v).Some? then [ToPoint(v).value] else []
    ensures LinesIn([v]) == if v.Arr? && PointsIn(v.items) != [] then [PointsIn(v.items)] else []
    ensures PolygonsIn([v]) == if v.Arr? && LinesIn(v.items) != [] then [LinesIn(v.items)] else []
  {
    assert [v][1..] == [];
  }

  // ---- Writing coordinates ----

  function PointJson(p: Point): Json { Arr([Num(p.x), Num(p.y)]) }

  function PointItems(line: seq<Point>): seq<Json> {
    if line == [] then [] else [PointJson(line[0])] + PointItems(line[1..])
  }

  function LineJson(line: seq<Point>): Json { Arr(PointItems(line)) }

  function LineItems(lines: seq<seq<Point>>): seq<Json> {
    if lines == [] then [] else [LineJson(lines[0])] + LineItems(lines[1..])
  }

  function LinesJson(lines: seq<seq<Point>>): Json { Arr(LineItems(lines)) }

  function PolygonItems(polygons: seq<seq<seq<Point>>>): seq<Json> {
    if polygons == [] then [] else [LinesJson(polygons[0])] + PolygonItems(polygons[1..])
  }

  function PolygonsJson(polygons: seq<seq<seq<Point>>>): Json { Arr(PolygonItems(polygons)) }

  lemma {:induction false} PointsRoundTrip(line: seq<Point>)
    ensures ToPointList(LineJson(line)) == line
  {
    if line != [] {
      PointsRoundTrip(line[1..]);
      assert PointItems(line)[1..] == PointItems(line[1..]);
    }
  }

  lemma {:induction false} LinesRoundTrip(lines: seq<seq<Point>>)
    requires NonEmpty(lines)
    ensures ToLineList(LinesJson(lines)) == lines
  {
    if lines != [] {
      PointsRoundTrip(lines[0]);
      LinesRoundTrip(lines[1..]);
      assert LineItems(lines)[1..] == LineItems(lines[1..]);
    }
  }

  lemma {:induction false} PolygonsRoundTrip(polygons: seq<seq<seq<Point>>>)
    requires NonEmptyPolygons(polygons)
    ensures ToPolygonList(PolygonsJson(polygons)) == polygons
  {
    if polygons != [] {
      LinesRoundTrip(polygons[0]);
      PolygonsRoundTrip(polygons[1..]);
      assert PolygonItems(polygons)[1..] == PolygonItems(polygons[1..]);
    }
  }

  // ---- The points of a geometry ----

  function Flatten(lines: seq<seq<Point>>): seq<Point> {
    if lines == [] then [] else lines[0] + Flatten(lines[1..])
  }

  function FlattenAll(polygons: seq<seq<seq<Point>>>): seq<Point> {
    if polygons == [] then [] else Flatten(polygons[0]) + FlattenAll(polygons[1..])
  }

  function CollectPoints(g: Geometry): seq<Point>
    decreases g
  {
    match g.kind
    case PointKind => var p := ToPoint(g.coordinates); if p.Some? then [p.value] else []
    case MultiPoint => ToPointList(g.coordinates)
    case LineString => ToPointList(g.coordinates)
    case MultiLineString => Flatten(ToLineList(g.coordinates))
    case Polygon => Flatten(ToLineList(g.coordinates))
    case MultiPolygon => FlattenAll(ToPolygonList(g.coordinates))
    case Collection => AllPoints(g.children)
    case Unknown => []
  }

  /** The points of several geometries one after another. */
  function AllPoints(gs: seq<Geometry>): seq<Point>
    decreases gs
  {
    if gs == [] then [] else CollectPoints(gs[0]) + AllPoints(gs[1..])
  }

  lemma {:induction false} InFlatten(lines: seq<seq<Point>>, p: Point)
    ensures p in Flatten(lines) <==> exists i :: 0 <= i < |lines| && p in lines[i]
  {
    if lines != [] {
      InFlatten(lines[1..], p);
      if i :| 0 <= i < |lines| && p in lines[i] {
        assert i == 0 || lines[i] == lines[1..][i - 1];
      }
    }
  }

  lemma {:induction false} InFlattenAll(polygons: seq<seq<seq<Point>>>, p: Point)
    ensures p in FlattenAll(polygons) <==>
      exists i, j :: 0 <= i < |polygons| && 0 <= j < |polygons[i]| && p in polygons[i][j]
  {
    if polygons != [] {
      InFlatten(polygons[0], p);
      InFlattenAll(polygons[1..], p);
      if i, j :| 0 <= i < |polygons| && 0 <= j < |polygons[i]| && p in polygons[i][j] {
        assert i == 0 || polygons[i] == polygons[1..][i - 1];
      }
      if i, j :| 0 <= i < |polygons[1..]| && 0 <= j < |polygons[1..][i]| && p in polygons[1..][i][j] {
        assert polygons[i + 1] == polygons[1..][i];
      }
    }
  }

  lemma {:induction false} InAllPoints(gs: seq<Geometry>, p: Point)
    ensures p in AllPoints(gs) <==> exists i :: 0 <= i < |gs| && p in CollectPoints(gs[i])
  {
    if gs != [] {
      InAllPoints(gs[1..], p);
      if i :| 0 <= i < |gs| && p in CollectPoints(gs[i]) {
        assert i == 0 || gs[i] == gs[1..][i - 1];
      }
    }
  }

  /** The points of a geometry are those of all its lines, all rings of its polygons, and all its children. */
  lemma PointsOf(g: Geometry, p: Point)
    ensures p in CollectPoints(g) <==>
      match g.kind
      case PointKind => ToPoint(g.coordinates) == Some(p)
      case MultiPoint => p in ToPointList(g.coordinates)
      case LineString => p in ToPointList(g.coordinates)
      case MultiLineString =>
        exists i :: 0 <= i < |ToLineList(g.coordinates)| && p in ToLineList(g.coordinates)[i]
      case Polygon =>
        exists i :: 0 <= i < |ToLineList(g.coordinates)| && p in ToLineList(g.coordinates)[i]
      case MultiPolygon =>
        exists i, j :: 0 <= i < |ToPolygonList(g.coordinates)| && 0 <= j < |ToPolygonList(g.coordinates)[i]|
                       && p in ToPolygonList(g.coordinates)[i][j]
      case Collection => exists i :: 0 <= i < |g.children| && p in CollectPoints(g.children[i])
      case Unknown => false
  {
    InFlatten(ToLineList(g.coordinates), p);
    InFlattenAll(ToPolygonList(g.coordinates), p);
    InAllPoints(g.children, p);
  }

  // ---- Exploding ----

  function PointGeometries(points: seq<Point>): seq<Geometry> {
    if points == [] then [] else [Geometry(PointKind, PointJson(points[0]), [])] + PointGeometries(points[1..])
  }

  function LineGeometries(lines: seq<seq<Point>>): seq<Geometry> {
    if lines == [] then [] else [Geometry(LineString, LineJson(lines[0]), [])] + LineGeometries(lines[1..])
  }

  function PolygonGeometries(polygons: seq<seq<seq<Point>>>): seq<Geometry> {
    if polygons == [] then [] else [Geometry(Polygon, LinesJson(polygons[0]), [])] + PolygonGeometries(polygons[1..])
  }

  function Explode(g: Geometry): seq<Geometry>
    decreases g
  {
    match g.kind
    case MultiPoint => PointGeometries(ToPointList(g.coordinates))
    case MultiLineString => LineGeometries(ToLineList(g.coordinates))
    case MultiPolygon => PolygonGeometries(ToPolygonList(g.coordinates))
    case Collection => ExplodeAll(g.children)
    case Unknown => []
    case _ => [g]
  }

  function ExplodeAll(gs: seq<Geometry>): seq<Geometry>
    decreases gs
  {
    if gs == [] then [] else Explode(gs[0]) + ExplodeAll(gs[1..])
  }

  lemma {:induction false} AllPointsAppend(a: seq<Geometry>, b: seq<Geometry>)
    ensures AllPoints(a + b) == AllPoints(a) + AllPoints(b)
  {
    if a == [] {
      assert a + b == b;
    } else {
      assert (a + b)[1..] == a[1..] + b;
      AllPointsAppend(a[1..], b);
    }
  }

  lemma {:induction false} PointGeometriesKeep(points: seq<Point>)
    ensures AllPoints(PointGeometries(points)) == points
  {
    if points != [] {
      PointGeometriesKeep(points[1..]);
      assert PointGeometries(points)[1..] == PointGeometries(points[1..]);
    }
  }

  lemma {:induction false} LineGeometriesKeep(lines: seq<seq<Point>>)
    ensures AllPoints(LineGeometries(lines)) == Flatten(lines)
  {
    if lines != [] {
      LineGeometriesKeep(lines[1..]);
      PointsRoundTrip(lines[0]);
      assert LineGeometries(lines)[1..] == LineGeometries(lines[1..]);
    }
  }

  lemma {:induction false} PolygonGeometriesKeep(polygons: seq<seq<seq<Point>>>)
    requires NonEmptyPolygons(polygons)
    ensures AllPoints(PolygonGeometries(polygons)) == FlattenAll(polygons)
  {
    if polygons != [] {
      PolygonGeometriesKeep(polygons[1..]);
      LinesRoundTrip(polygons[0]);
      assert PolygonGeometries(polygons)[1..] == PolygonGeometries(polygons[1..]);
    }
  }

  /** Exploding conserves the sequence of points, at any depth of nesting. */
  lemma {:induction false} ExplodeConservesPoints(g: Geometry)
    ensures AllPoints(Explode(g)) == CollectPoints(g)
    decreases g
  {
    match g.kind
    case MultiPoint => PointGeometriesKeep(ToPointList(g.coordinates));
    case MultiLineString => LineGeometriesKeep(ToLineList(g.coordinates));
    case MultiPolygon => PolygonGeometriesKeep(ToPolygonList(g.coordinates));
    case Collection => ExplodeChildrenConserve(g.children);
    case Unknown =>
    case _ => assert [g][1..] == [];
  }

  lemma {:induction false} ExplodeChildrenConserve(children: seq<Geometry>)
    ensures AllPoints(ExplodeAll(children)) == AllPoints(children)
    decreases children
  {
    if children != [] {
      ExplodeChildrenConserve(children[1..]);
      ExplodeConservesPoints(children[0]);
      AllPointsAppend(Explode(children[0]), ExplodeAll(children[1..]));
    }
  }

  predicate IsSimple(g: Geometry) {
    g.kind in {PointKind, LineString, Polygon}
  }

  lemma {:induction false} ExplodeOfSimple(gs: seq<Geometry>)
    requires forall i | 0 <= i < |gs| :: IsSimple(gs[i])
    ensures ExplodeAll(gs) == gs
  {
    if gs != [] {
      assert IsSimple(gs[0]);
      ExplodeOfSimple(gs[1..]);
      assert gs == [gs[0]] + gs[1..];
    }
  }

  lemma {:induction false} PointGeometriesSimple(points: seq<Point>)
    ensures forall i | 0 <= i < |PointGeometries(points)| :: IsSimple(PointGeometries(points)[i])
  {
    if points != [] {
      PointGeometriesSimple(points[1..]);
    }
  }

  lemma {:induction false} LineGeometriesSimple(lines: seq<seq<Point>>)
    ensures forall i | 0 <= i < |LineGeometries(lines)| :: IsSimple(LineGeometries(lines)[i])
  {
    if lines != [] {
      LineGeometriesSimple(lines[1..]);
    }
  }

  lemma {:induction false} PolygonGeometriesSimple(polygons: seq<seq<seq<Point>>>)
    ensures forall i | 0 <= i < |PolygonGeometries(polygons)| :: IsSimple(PolygonGeometries(polygons)[i])
  {
    if polygons != [] {
      PolygonGeometriesSimple(polygons[1..]);
    }
  }

  /** No multi-part geometry and no collection is left. */
  lemma {:induction false} ExplodeIsSimple(g: Geometry)
    ensures forall i | 0 <= i < |Explode(g)| :: IsSimple(Explode(g)[i])
    decreases g
  {
    match g.kind
    case MultiPoint => PointGeometriesSimple(ToPointList(g.coordinates));
    case MultiLineString => LineGeometriesSimple(ToLineList(g.coordinates));
    case MultiPolygon => PolygonGeometriesSimple(ToPolygonList(g.coordinates));
    case Collection => ExplodeChildrenSimple(g.children);
    case _ =>
  }

  lemma {:induction false} ExplodeChildrenSimple(children: seq<Geometry>)
    ensures forall i | 0 <= i < |ExplodeAll(children)| :: IsSimple(ExplodeAll(children)[i])
    decreases children
  {
    if children != [] {
      ExplodeChildrenSimple(children[1..]);
      ExplodeIsSimple(children[0]);
    }
  }

  /** Exploding what has been exploded changes nothing. */
  lemma ExplodeIdempotent(g: Geometry)
    ensures ExplodeAll(Explode(g)) == Explode(g)
  {
    ExplodeIsSimple(g);
    ExplodeOfSimple(Explode(g));
  }

  lemma {:induction false} PointGeometriesAt(points: seq<Point>, i: nat)
    requires i < |points|
    ensures var gs := PointGeometries(points);
      |gs| == |points| && gs[i].kind == PointKind && ToPoint(gs[i].coordinates) == Some(points[i])
  {
    if i > 0 {
      PointGeometriesAt(points[1..], i - 1);
    } else if |points| > 1 {
      PointGeometriesAt(points[1..], 0);
    }
  }

  lemma {:induction false} LineGeometriesAt(lines: seq<seq<Point>>, i: nat)
    requires i < |lines|
    ensures var gs := LineGeometries(lines);
      |gs| == |lines| && gs[i].kind == LineString && ToPointList(gs[i].coordinates) == lines[i]
  {
    PointsRoundTrip(lines[0]);
    if i > 0 {
      LineGeometriesAt(lines[1..], i - 1);
    } else if |lines| > 1 {
      LineGeometriesAt(lines[1..], 0);
    }
  }

  lemma {:induction false} PolygonGeometriesAt(polygons: seq<seq<seq<Point>>>, i: nat)
    requires NonEmptyPolygons(polygons) && i < |polygons|
    ensures var gs := PolygonGeometries(polygons);
      |gs| == |polygons| && gs[i].kind == Polygon && ToLineList(gs[i].coordinates) == polygons[i]
  {
    LinesRoundTrip(polygons[0]);
    if i > 0 {
      PolygonGeometriesAt(polygons[1..], i - 1);
    } else if |polygons| > 1 {
      PolygonGeometriesAt(polygons[1..], 0);
    }
  }

  /** The parts of a geometry: a point, line or polygon with all its rings for each one it has. */
  ghost predicate HasParts(g: Geometry, gs: seq<Geometry>) {
    match g.kind
    case MultiPoint =>
      var points := ToPointList(g.coordinates);
      |gs| == |points| &&
      forall i | 0 <= i < |gs| :: gs[i].kind == PointKind && ToPoint(gs[i].coordinates) == Some(points[i])
    case MultiLineString =>
      var lines := ToLineList(g.coordinates);
      |gs| == |lines| &&
      forall i | 0 <= i < |gs| :: gs[i].kind == LineString && ToPointList(gs[i].coordinates) == lines[i]
    case MultiPolygon =>
      var polygons := ToPolygonList(g.coordinates);
      |gs| == |polygons| &&
      forall i | 0 <= i < |gs| :: gs[i].kind == Polygon && ToLineList(gs[i].coordinates) == polygons[i]
    case Unknown => gs == []
    case Collection => true
    case _ => gs == [g]
  }

  /** Exploding separates exactly the parts, each with the positions it has. */
  lemma ExplodeParts(g: Geometry)
    ensures HasParts(g, Explode(g))
  {
    match g.kind
    case MultiPoint =>
      var points := ToPointList(g.coordinates);
      forall i: nat | i < |points| { PointGeometriesAt(points, i); }
    case MultiLineString =>
      var lines := ToLineList(g.coordinates);
      forall i: nat | i < |lines| { LineGeometriesAt(lines, i); }
    case MultiPolygon =>
      var polygons := ToPolygonList(g.coordinates);
      forall i: nat | i < |polygons| { PolygonGeometriesAt(polygons, i); }
    case _ =>
  }

  // ---- Bounding boxes ----

  datatype BBox = BBox(minX: real, minY: real, maxX: real, maxY: real)

  predicate Covers(b: BBox, p: Point) {
    b.minX <= p.x <= b.maxX && b.minY <= p.y <= b.maxY
  }

  /** Every point is inside and every side is touched. */
  ghost predicate IsTight(b: BBox, points: seq<Point>) {
    && (forall i | 0 <= i < |points| :: Covers(b, points[i]))
    && (exists i :: 0 <= i < |points| && points[i].x == b.minX)
    && (exists i :: 0 <= i < |points| && points[i].y == b.minY)
    && (exists i :: 0 <= i < |points| && points[i].x == b.maxX)
    && (exists i :: 0 <= i < |points| && points[i].y == b.maxY)
  }

  function Min(a: real, b: real): real { if b < a then b else a }

  function Max(a: real, b: real): real { if b > a then b else a }

  function Extend(b: BBox, p: Point): BBox {
    BBox(Min(b.minX, p.x), Min(b.minY, p.y), Max(b.maxX, p.x), Max(b.maxY, p.y))
  }

  lemma ExtendTight(b: BBox, points: seq<Point>, p: Point)
    requires IsTight(b, points)
    ensures IsTight(Extend(b, p), points + [p])
  {
    var more := points + [p];
    assert more[|points|] == p;
    forall i | 0 <= i < |more|
      ensures Covers(Extend(b, p), more[i])
    {
      assert i < |points| ==> more[i] == points[i] && Covers(b, points[i]);
    }
    var i :| 0 <= i < |points| && points[i].x == b.minX;
    var j :| 0 <= j < |points| && points[j].y == b.minY;
    var k :| 0 <= k < |points| && points[k].x == b.maxX;
    var l :| 0 <= l < |points| && points[l].y == b.maxY;
    assert more[i] == points[i] && more[j] == points[j] && more[k] == points[k] && more[l] == points[l];
  }

  method GeometryBBox(g: Geometry) returns (r: Option<BBox>)
    ensures r.None? <==> CollectPoints(g) == []
    ensures r.Some? ==> IsTight(r.value, CollectPoints(g))
  {
    var points := CollectPoints(g);
    if |points| == 0 {
      return None;
    }
    var bbox := BBox(points[0].x, points[0].y, points[0].x, points[0].y);
    assert points[..1][0] == points[0];
    for i := 1 to |points|
      invariant IsTight(bbox, points[..i])
    {
      ExtendTight(bbox, points[..i], points[i]);
      assert points[..i + 1] == points[..i] + [points[i]];
      bbox := Extend(bbox, points[i]);
    }
    assert points[..|points|] == points;
    r := Some(bbox);
  }

  ghost predicate Within(inner: BBox, outer: BBox) {
    && outer.minX <= inner.minX && outer.minY <= inner.minY
    && inner.maxX <= outer.maxX && inner.maxY <= outer.maxY
  }

  /** Fewer points never need a larger box. */
  lemma FewerPointsSmallerBox(b: BBox, points: seq<Point>, c: BBox, fewer: seq<Point>)
    requires IsTight(b, points) && IsTight(c, fewer)
    requires forall p | p in fewer :: p in points
    ensures Within(c, b)
  {
    forall p | p in fewer
      ensures Covers(b, p)
    {
      assert p in points;
    }
    var i :| 0 <= i < |fewer| && fewer[i].x == c.minX;
    var j :| 0 <= j < |fewer| && fewer[j].y == c.minY;
    var k :| 0 <= k < |fewer| && fewer[k].x == c.maxX;
    var l :| 0 <= l < |fewer| && fewer[l].y == c.maxY;
    assert Covers(b, fewer[i]) && Covers(b, fewer[j]) && Covers(b, fewer[k]) && Covers(b, fewer[l]);
  }

  /** The box of what a geometry explodes into is the geometry's own. */
  lemma ExplodeKeepsBBox(g: Geometry, b: BBox, c: BBox)
    requires IsTight(b, CollectPoints(g)) && IsTight(c, AllPoints(Explode(g)))
    ensures b == c
  {
    ExplodeConservesPoints(g);
    FewerPointsSmallerBox(b, CollectPoints(g), c, AllPoints(Explode(g)));
    FewerPointsSmallerBox(c, AllPoints(Explode(g)), b, CollectPoints(g));
  }

  // ---- Simplifying ----

  function SimplifyLines(s: Simplifier, lines: seq<seq<Point>>, minPoints: nat, closed: bool): (r: seq<seq<Point>>)
    ensures |r| == |lines|
  {
    if lines == [] then []
    else [SimplifiedLine(s, lines[0], minPoints, closed)] + SimplifyLines(s, lines[1..], minPoints, closed)
  }

  function SimplifyPolygons(s: Simplifier, polygons: seq<seq<seq<Point>>>): seq<seq<seq<Point>>> {
    if polygons == [] then []
    else [SimplifyLines(s, polygons[0], 4, true)] + SimplifyPolygons(s, polygons[1..])
  }

  /** Lines need two points, rings four; everything else, collections included, is left alone. */
  function Simplify(s: Simplifier, g: Geometry): Geometry {
    match g.kind
    case LineString =>
      Geometry(LineString, LineJson(SimplifiedLine(s, ToPointList(g.coordinates), 2, false)), [])
    case Polygon =>
      Geometry(Polygon, LinesJson(SimplifyLines(s, ToLineList(g.coordinates), 4, true)), [])
    case MultiLineString =>
      Geometry(MultiLineString, LinesJson(SimplifyLines(s, ToLineList(g.coordinates), 2, false)), [])
    case MultiPolygon =>
      Geometry(MultiPolygon, PolygonsJson(SimplifyPolygons(s, ToPolygonList(g.coordinates))), [])
    case _ => g
  }

  lemma {:induction false} SimplifyLinesKeep(s: Simplifier, lines: seq<seq<Point>>, minPoints: nat, closed: bool)
    requires NonEmpty(lines)
    ensures NonEmpty(SimplifyLines(s, lines, minPoints, closed))
    ensures forall p | p in Flatten(SimplifyLines(s, lines, minPoints, closed)) :: p in Flatten(lines)
  {
    if lines != [] {
      SimplifyLinesKeep(s, lines[1..], minPoints, closed);
      SimplifyAddsNoPoint(s, lines[0], minPoints, closed);
    }
  }

  lemma {:induction false} SimplifyPolygonsKeep(s: Simplifier, polygons: seq<seq<seq<Point>>>)
    requires NonEmptyPolygons(polygons)
    ensures NonEmptyPolygons(SimplifyPolygons(s, polygons))
    ensures |SimplifyPolygons(s, polygons)| == |polygons|
    ensures forall p | p in FlattenAll(SimplifyPolygons(s, polygons)) :: p in FlattenAll(polygons)
  {
    if polygons != [] {
      SimplifyPolygonsKeep(s, polygons[1..]);
      SimplifyLinesKeep(s, polygons[0], 4, true);
    }
  }

  lemma FlattenNonEmpty(lines: seq<seq<Point>>)
    requires NonEmpty(lines)
    ensures Flatten(lines) == [] <==> lines == []
  {
    if lines != [] {
      assert lines[0] != [];
    }
  }

  lemma FlattenAllNonEmpty(polygons: seq<seq<seq<Point>>>)
    requires NonEmptyPolygons(polygons)
    ensures FlattenAll(polygons) == [] <==> polygons == []
  {
    if polygons != [] {
      assert polygons[0] != [] && NonEmpty(polygons[0]);
      FlattenNonEmpty(polygons[0]);
    }
  }

  /** Simplifying adds no point and never removes the last one. */
  lemma SimplifyKeepsSomePoints(s: Simplifier, g: Geometry)
    ensures forall p | p in CollectPoints(Simplify(s, g)) :: p in CollectPoints(g)
    ensures CollectPoints(Simplify(s, g)) == [] <==> CollectPoints(g) == []
  {
    match g.kind
    case LineString =>
      var line := ToPointList(g.coordinates);
      SimplifyAddsNoPoint(s, line, 2, false);
      PointsRoundTrip(SimplifiedLine(s, line, 2, false));
    case Polygon => LinesKeepSomePoints(s, ToLineList(g.coordinates), 4, true);
    case MultiLineString => LinesKeepSomePoints(s, ToLineList(g.coordinates), 2, false);
    case MultiPolygon =>
      var polygons := ToPolygonList(g.coordinates);
      SimplifyPolygonsKeep(s, polygons);
      PolygonsRoundTrip(SimplifyPolygons(s, polygons));
      FlattenAllNonEmpty(polygons);
      FlattenAllNonEmpty(SimplifyPolygons(s, polygons));
    case _ =>
  }

  lemma LinesKeepSomePoints(s: Simplifier, lines: seq<seq<Point>>, minPoints: nat, closed: bool)
    requires NonEmpty(lines)
    ensures var after := Flatten(ToLineList(LinesJson(SimplifyLines(s, lines, minPoints, closed))));
      (forall p | p in after :: p in Flatten(lines)) && (after == [] <==> Flatten(lines) == [])
  {
    var simpler := SimplifyLines(s, lines, minPoints, closed);
    SimplifyLinesKeep(s, lines, minPoints, closed);
    LinesRoundTrip(simpler);
    FlattenNonEmpty(lines);
    FlattenNonEmpty(simpler);
  }

  /** Simplifying never enlarges the bounding box. */
  lemma SimplifyNeverEnlarges(s: Simplifier, g: Geometry, b: BBox, c: BBox)
    requires IsTight(b, CollectPoints(g)) && IsTight(c, CollectPoints(Simplify(s, g)))
    ensures Within(c, b)
  {
    SimplifyKeepsSomePoints(s, g);
    FewerPointsSmallerBox(b, CollectPoints(g), c, CollectPoints(Simplify(s, g)));
  }

  lemma {:induction false} SimplifyLinesAt(s: Simplifier, lines: seq<seq<Point>>, minPoints: nat, closed: bool)
    ensures forall i | 0 <= i < |lines| ::
      SimplifyLines(s, lines, minPoints, closed)[i] == SimplifiedLine(s, lines[i], minPoints, closed)
  {
    if lines != [] {
      SimplifyLinesAt(s, lines[1..], minPoints, closed);
    }
  }

  /** Every ring of the one polygon is simplified as a closed ring that needs four points. */
  predicate RingsSimplified(s: Simplifier, rings: seq<seq<Point>>, after: seq<seq<Point>>) {
    |after| == |rings| && forall i | 0 <= i < |rings| :: after[i] == SimplifiedLine(s, rings[i], 4, true)
  }

  predicate LinesSimplified(s: Simplifier, lines: seq<seq<Point>>, after: seq<seq<Point>>) {
    |after| == |lines| && forall i | 0 <= i < |lines| :: after[i] == SimplifiedLine(s, lines[i], 2, false)
  }

  lemma {:induction false} SimplifyPolygonsAt(s: Simplifier, polygons: seq<seq<seq<Point>>>)
    ensures |SimplifyPolygons(s, polygons)| == |polygons|
    ensures forall i | 0 <= i < |polygons| :: RingsSimplified(s, polygons[i], SimplifyPolygons(s, polygons)[i])
  {
    if polygons != [] {
      SimplifyPolygonsAt(s, polygons[1..]);
      SimplifyLinesAt(s, polygons[0], 4, true);
    }
  }

  /** Simplifying keeps the kind and acts on every line and every ring of every polygon by itself. */
  lemma SimplifyActs(s: Simplifier, g: Geometry)
    ensures var after := Simplify(s, g);
      && after.kind == g.kind
      && match g.kind
         case LineString => ToPointList(after.coordinates) == SimplifiedLine(s, ToPointList(g.coordinates), 2, false)
         case MultiLineString => LinesSimplified(s, ToLineList(g.coordinates), ToLineList(after.coordinates))
         case Polygon => RingsSimplified(s, ToLineList(g.coordinates), ToLineList(after.coordinates))
         case MultiPolygon =>
           var before, polygons := ToPolygonList(g.coordinates), ToPolygonList(after.coordinates);
           |polygons| == |before| && forall i | 0 <= i < |before| :: RingsSimplified(s, before[i], polygons[i])
         case _ => after == g
  {
    match g.kind
    case LineString => PointsRoundTrip(SimplifiedLine(s, ToPointList(g.coordinates), 2, false));
    case MultiLineString =>
      var lines := ToLineList(g.coordinates);
      SimplifyLinesKeep(s, lines, 2, false);
      LinesRoundTrip(SimplifyLines(s, lines, 2, false));
      SimplifyLinesAt(s, lines, 2, false);
    case Polygon =>
      var rings := ToLineList(g.coordinates);
      SimplifyLinesKeep(s, rings, 4, true);
      LinesRoundTrip(SimplifyLines(s, rings, 4, true));
      SimplifyLinesAt(s, rings, 4, true);
    case MultiPolygon =>
      var polygons := ToPolygonList(g.coordinates);
      SimplifyPolygonsKeep(s, polygons);
      PolygonsRoundTrip(SimplifyPolygons(s, polygons));
      SimplifyPolygonsAt(s, polygons);
    case _ =>
  }

  predicate IsRing(line: seq<Point>) {
    |line| >= 4 && IsClosed(line)
  }

  /** A polygon whose rings are closed and have four points keeps as many such rings. */
  lemma PolygonStaysPolygon(s: Simplifier, g: Geometry)
    requires g.kind == Polygon && forall ring | ring in ToLineList(g.coordinates) :: IsRing(ring)
    ensures var rings := ToLineList(Simplify(s, g).coordinates);
      |rings| == |ToLineList(g.coordinates)| && forall ring | ring in rings :: IsRing(ring)
  {
    SimplifyActs(s, g);
    var before := ToLineList(g.coordinates);
    forall i | 0 <= i < |before|
      ensures IsRing(ToLineList(Simplify(s, g).coordinates)[i])
    {
      assert IsRing(before[i]);
      RingStaysRing(s, before[i], 4);
    }
  }

  // ---- Exploding and simplifying together ----

  function SimplifyAll(s: Simplifier, gs: seq<Geometry>): seq<Geometry> {
    if gs == [] then [] else [Simplify(s, gs[0])] + SimplifyAll(s, gs[1..])
  }

  lemma {:induction false} SimplifyLineGeometries(s: Simplifier, lines: seq<seq<Point>>)
    ensures SimplifyAll(s, LineGeometries(lines)) == LineGeometries(SimplifyLines(s, lines, 2, false))
  {
    if lines != [] {
      PointsRoundTrip(lines[0]);
      SimplifyLineGeometries(s, lines[1..]);
      assert LineGeometries(lines)[1..] == LineGeometries(lines[1..]);
      var simpler := SimplifyLines(s, lines, 2, false);
      assert simpler[1..] == SimplifyLines(s, lines[1..], 2, false);
    }
  }

  lemma {:induction false} SimplifyPolygonGeometries(s: Simplifier, polygons: seq<seq<seq<Point>>>)
    requires NonEmptyPolygons(polygons)
    ensures SimplifyAll(s, PolygonGeometries(polygons)) == PolygonGeometries(SimplifyPolygons(s, polygons))
  {
    if polygons != [] {
      LinesRoundTrip(polygons[0]);
      SimplifyPolygonGeometries(s, polygons[1..]);
      assert PolygonGeometries(polygons)[1..] == PolygonGeometries(polygons[1..]);
      var simpler := SimplifyPolygons(s, polygons);
      assert simpler[1..] == SimplifyPolygons(s, polygons[1..]);
    }
  }

  lemma {:induction false} SimplifyPointGeometries(s: Simplifier, points: seq<Point>)
    ensures SimplifyAll(s, PointGeometries(points)) == PointGeometries(points)
  {
    if points != [] {
      SimplifyPointGeometries(s, points[1..]);
      assert PointGeometries(points)[1..] == PointGeometries(points[1..]);
    }
  }

  lemma SimplifyOne(s: Simplifier, g: Geometry)
    ensures SimplifyAll(s, [g]) == [Simplify(s, g)]
  {
    assert [g][1..] == [];
  }

  /** For anything but a collection, it does not matter whether one explodes or simplifies first. */
  lemma ExplodeAndSimplifyCommute(s: Simplifier, g: Geometry)
    requires g.kind != Collection
    ensures SimplifyAll(s, Explode(g)) == Explode(Simplify(s, g))
  {
    SimplifyOne(s, g);
    match g.kind
    case MultiPoint => SimplifyPointGeometries(s, ToPointList(g.coordinates));
    case MultiLineString =>
      var lines := ToLineList(g.coordinates);
      SimplifyLineGeometries(s, lines);
      SimplifyLinesKeep(s, lines, 2, false);
      LinesRoundTrip(SimplifyLines(s, lines, 2, false));
    case MultiPolygon =>
      var polygons := ToPolygonList(g.coordinates);
      SimplifyPolygonGeometries(s, polygons);
      SimplifyPolygonsKeep(s, polygons);
      PolygonsRoundTrip(SimplifyPolygons(s, polygons));
    case _ =>
  }

  predicate LeavesAlone(s: Simplifier, gs: seq<Geometry>) {
    forall i | 0 <= i < |gs| :: Simplify(s, gs[i]) == gs[i]
  }

  lemma {:induction false} SimplifyAllLeavesIff(s: Simplifier, gs: seq<Geometry>)
    ensures SimplifyAll(s, gs) == gs <==> LeavesAlone(s, gs)
  {
    if gs != [] {
      var all := [Simplify(s, gs[0])] + SimplifyAll(s, gs[1..]);
      SimplifyAllLeavesIff(s, gs[1..]);
      assert all[0] == Simplify(s, gs[0]) && all[1..] == SimplifyAll(s, gs[1..]);
      if LeavesAlone(s, gs[1..]) && Simplify(s, gs[0]) == gs[0] {
        assert forall i | 0 < i < |gs| :: gs[i] == gs[1..][i - 1];
        assert all == gs;
      } else if !LeavesAlone(s, gs[1..]) {
        var i :| 0 <= i < |gs[1..]| && Simplify(s, gs[1..][i]) != gs[1..][i];
        assert gs[i + 1] == gs[1..][i];
      }
    }
  }

  /**
   Simplifying does not reach into a collection, so exploding and simplifying commute exactly when the
   geometry is none, or when none of its parts would be changed.
   */
  lemma ExplodeAndSimplifyCommuteIff(s: Simplifier, g: Geometry)
    ensures SimplifyAll(s, Explode(g)) == Explode(Simplify(s, g)) <==>
      g.kind != Collection || LeavesAlone(s, Explode(g))
  {
    if g.kind != Collection {
      ExplodeAndSimplifyCommute(s, g);
    } else {
      SimplifyAllLeavesIff(s, Explode(g));
    }
  }

  /** An instance: a collection of one straight line of three points. */
  lemma CollectionsMustBeExplodedFirst() returns (s: Simplifier, g: Geometry)
    ensures g.kind == Collection && SimplifyAll(s, Explode(g)) != Explode(Simplify(s, g))
  {
    s := Simplifier((p, a, b) => 0.0, 1.0);
    var line := [Point(0.0, 0.0), Point(1.0, 0.0), Point(2.0, 0.0)];
    var child := Geometry(LineString, LineJson(line), []);
    g := Geometry(Collection, Other, [child]);
    ExplodeOfSimple([child]);
    assert Explode(g) == [child];
    SimplifyOne(s, child);
    PointsRoundTrip(line);
    assert s.Farthest(line).0 == 0.0;
    var short := SimplifiedLine(s, line, 2, false);
    assert |short| == 2;
    PointsRoundTrip(short);
    assert ToPointList(Simplify(s, child).coordinates) == short;
  }
}
