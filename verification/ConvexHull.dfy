/** Andrew's monotone chain, as used to outline the reachable area. */
module ConvexHull {
  import opened Plane
  import opened HullGeometry
  import opened Sorting

  ghost predicate InOrder(lower: bool, s: seq<Point>) {
    forall i, j | 0 <= i < j < |s| :: Ahead(lower, s[i], s[j])
  }

  /** Visits points in order and turns strictly left at every inner vertex. */
  ghost predicate IsChain(lower: bool, chain: seq<Point>) {
    && InOrder(lower, chain)
    && forall i | 0 <= i < |chain| - 2 :: Cross(chain[i], chain[i + 1], chain[i + 2]) > 0.0
  }

  /** No point is to the right of any edge. */
  ghost predicate LeftOfEdges(chain: seq<Point>, points: seq<Point>) {
    forall i, p | 0 <= i < |chain| - 1 && p in points :: Cross(chain[i], chain[i + 1], p) >= 0.0
  }

  /** No point beyond `top` is to the right of the edge from `top` to `next`. */
  ghost predicate LeftBeyond(lower: bool, top: Point, next: Point, points: seq<Point>) {
    forall p | p in points && Ahead(lower, top, p) :: Cross(top, next, p) >= 0.0
  }

  lemma BeyondAfterPop(lower: bool, a: Point, b: Point, next: Point, points: seq<Point>)
    requires Ahead(lower, a, b) && Ahead(lower, b, next)
    requires forall p | p in points :: Ahead(lower, p, next) && Cross(a, b, p) >= 0.0
    requires LeftBeyond(lower, b, next, points)
    requires Cross(a, b, next) <= 0.0
    ensures LeftBeyond(lower, a, next, points)
  {
    forall p | p in points && Ahead(lower, a, p)
      ensures Cross(a, next, p) >= 0.0
    {
      CrossSwaps(a, b, next);
      BeforeTotal(lower, b, p);
      if Ahead(lower, b, p) {
        CrossRotates(b, next, p);
        CrossRotates(a, next, b);
        CrossRotates(a, next, p);
        Fan(lower, next, p, b, a);
      } else if p != b {
        Fan(lower, a, next, b, p);
      }
    }
  }

  /** Appending after the last pop: the new edge has every point on its left. */
  lemma NewEdge(lower: bool, chain: seq<Point>, next: Point, points: seq<Point>)
    requires chain != [] && IsChain(lower, chain) && LeftOfEdges(chain, points)
    requires Ahead(lower, chain[|chain| - 1], next)
    requires LeftBeyond(lower, chain[|chain| - 1], next, points)
    requires |chain| >= 2 ==> Cross(chain[|chain| - 2], chain[|chain| - 1], next) > 0.0
    requires |chain| == 1 ==> forall p | p in points :: p == chain[0] || Ahead(lower, chain[0], p)
    ensures forall p | p in points :: Cross(chain[|chain| - 1], next, p) >= 0.0
  {
    var top := chain[|chain| - 1];
    forall p | p in points
      ensures Cross(top, next, p) >= 0.0
    {
      BeforeTotal(lower, top, p);
      if p == top {
        CrossDegenerate(top, next);
      } else if Ahead(lower, p, top) {
        Corner(lower, chain[|chain| - 2], top, next, p);
      }
    }
  }

  /** The new point is strictly left of every edge already in the chain. */
  lemma {:induction false} OldEdges(lower: bool, chain: seq<Point>, next: Point, i: nat)
    requires IsChain(lower, chain) && i + 1 < |chain|
    requires Ahead(lower, chain[|chain| - 1], next)
    requires Cross(chain[|chain| - 2], chain[|chain| - 1], next) > 0.0
    ensures Cross(chain[i], chain[i + 1], next) > 0.0
    decreases |chain| - i
  {
    if i + 2 < |chain| {
      OldEdges(lower, chain, next, i + 1);
      AheadTransitive(lower, chain[i + 1], chain[|chain| - 1], next);
      TwoTurns(lower, chain[i], chain[i + 1], chain[i + 2], next);
    }
  }

  lemma AheadTransitive(lower: bool, a: Point, b: Point, c: Point)
    requires (a == b || Ahead(lower, a, b)) && Ahead(lower, b, c)
    ensures Ahead(lower, a, c)
  {
  }

  lemma Append(lower: bool, chain: seq<Point>, next: Point, points: seq<Point>)
    requires chain != [] && IsChain(lower, chain) && LeftOfEdges(chain, points)
    requires Ahead(lower, chain[|chain| - 1], next)
    requires LeftBeyond(lower, chain[|chain| - 1], next, points)
    requires |chain| >= 2 ==> Cross(chain[|chain| - 2], chain[|chain| - 1], next) > 0.0
    requires |chain| == 1 ==> forall p | p in points :: p == chain[0] || Ahead(lower, chain[0], p)
    ensures IsChain(lower, chain + [next]) && LeftOfEdges(chain + [next], points + [next])
  {
    NewEdge(lower, chain, next, points);
    var longer := chain + [next];
    forall i, p | 0 <= i < |longer| - 1 && p in points + [next]
      ensures Cross(longer[i], longer[i + 1], p) >= 0.0
    {
      if i + 1 < |chain| {
        OldEdges(lower, chain, next, i);
      } else {
        CrossDegenerate(longer[i], next);
      }
    }
    forall i | 0 <= i < |chain|
      ensures Ahead(lower, chain[i], next)
    {
      AheadTransitive(lower, chain[i], chain[|chain| - 1], next);
    }
  }

  /** The chain of a non-empty ordered list of points. */
  ghost predicate ChainOf(lower: bool, chain: seq<Point>, points: seq<Point>) {
    && IsChain(lower, chain) && LeftOfEdges(chain, points)
    && chain != [] && points != []
    && chain[0] == points[0] && chain[|chain| - 1] == points[|points| - 1]
    && (forall p | p in chain :: p in points)
    && (|points| >= 2 ==> |chain| >= 2)
  }

  /** Drops points from the end of the chain until `next` makes a left turn. */
  method PopRightTurns(lower: bool, chain: seq<Point>, next: Point, ghost seen: seq<Point>) returns (r: seq<Point>)
    requires ChainOf(lower, chain, seen)
    requires forall p | p in seen :: Ahead(lower, p, next) && (p == seen[|seen| - 1] || Ahead(lower, p, seen[|seen| - 1]))
    ensures r != [] && r <= chain && LeftBeyond(lower, r[|r| - 1], next, seen)
    ensures |r| >= 2 ==> Cross(r[|r| - 2], r[|r| - 1], next) > 0.0
  {
    r := chain;
    assert LeftBeyond(lower, r[|r| - 1], next, seen) by {
      forall p | p in seen
        ensures !Ahead(lower, seen[|seen| - 1], p)
      {
        BeforeTotal(lower, seen[|seen| - 1], p);
      }
    }
    while |r| >= 2 && Cross(r[|r| - 2], r[|r| - 1], next) <= 0.0
      invariant r != [] && r <= chain
      invariant LeftBeyond(lower, r[|r| - 1], next, seen)
    {
      BeyondAfterPop(lower, r[|r| - 2], r[|r| - 1], next, seen);
      r := r[..|r| - 1];
    }
  }

  lemma PrefixOfChain(lower: bool, chain: seq<Point>, shorter: seq<Point>, points: seq<Point>)
    requires ChainOf(lower, chain, points) && shorter != [] && shorter <= chain
    ensures IsChain(lower, shorter) && LeftOfEdges(shorter, points)
    ensures shorter[0] == points[0] && forall p | p in shorter :: p in points
  {
  }

  method AddPoint(lower: bool, chain: seq<Point>, next: Point, ghost seen: seq<Point>) returns (r: seq<Point>)
    requires ChainOf(lower, chain, seen) && InOrder(lower, seen + [next])
    ensures ChainOf(lower, r, seen + [next])
  {
    InOrderSoFar(lower, seen, next);
    r := PopRightTurns(lower, chain, next, seen);
    PrefixOfChain(lower, chain, r, seen);
    Append(lower, r, next, seen);
    r := r + [next];
  }

  method MonotoneChain(lower: bool, points: seq<Point>) returns (chain: seq<Point>)
    requires points != [] && InOrder(lower, points)
    ensures ChainOf(lower, chain, points)
  {
    chain := [points[0]];
    for n := 1 to |points|
      invariant ChainOf(lower, chain, points[..n])
    {
      assert points[..n + 1] == points[..n] + [points[n]];
      chain := AddPoint(lower, chain, points[n], points[..n]);
    }
    assert points[..|points|] == points;
  }

  lemma InOrderSoFar(lower: bool, seen: seq<Point>, next: Point)
    requires seen != [] && InOrder(lower, seen + [next])
    ensures forall p | p in seen ::
      && Ahead(lower, p, next)
      && (p == seen[|seen| - 1] || Ahead(lower, p, seen[|seen| - 1]))
      && (p == seen[0] || Ahead(lower, seen[0], p))
  {
    var all := seen + [next];
    forall p | p in seen
      ensures Ahead(lower, p, next)
      ensures p == seen[|seen| - 1] || Ahead(lower, p, seen[|seen| - 1])
      ensures p == seen[0] || Ahead(lower, seen[0], p)
    {
      var i :| 0 <= i < |seen| && seen[i] == p;
      assert all[i] == p && all[|seen|] == next && all[0] == seen[0] && all[|seen| - 1] == seen[|seen| - 1];
    }
  }

  predicate PointLeq(a: Point, b: Point) {
    a == b || Before(a, b)
  }

  method SortPoints(points: seq<Point>) returns (r: seq<Point>)
    requires AllDifferent(points)
    ensures InOrder(true, r) && |r| == |points|
    ensures forall p :: p in r <==> p in points
  {
    r := StableSort(points, PointLeq);
    SortSorted(points, PointLeq);
    SortMembers(points, PointLeq);
    SortDifferent(points, PointLeq);
  }

  /** The different points, in order of first occurrence. */
  method Distinct(points: seq<Point>) returns (unique: seq<Point>)
    ensures AllDifferent(unique)
    ensures forall p :: p in unique <==> p in points
  {
    unique := [];
    var seen: set<Point> := {};
    for n := 0 to |points|
      invariant forall p :: p in seen <==> p in unique
      invariant forall p :: p in unique <==> p in points[..n]
      invariant AllDifferent(unique)
    {
      if points[n] !in seen {
        seen := seen + {points[n]};
        unique := unique + [points[n]];
      }
    }
  }

  function Next(n: nat, i: nat): nat
    requires i < n
  {
    if i + 1 == n then 0 else i + 1
  }

  /** No input point is to the right of any side of the polygon. */
  ghost predicate Encloses(hull: seq<Point>, points: seq<Point>) {
    forall i, p | 0 <= i < |hull| && p in points :: Cross(hull[i], hull[Next(|hull|, i)], p) >= 0.0
  }

  /** Counter-clockwise with a strict left turn at every vertex, the wrap-around included. */
  ghost predicate TurnsLeft(hull: seq<Point>) {
    forall i | 0 <= i < |hull| ::
      var j := Next(|hull|, i);
      Cross(hull[i], hull[j], hull[Next(|hull|, j)]) > 0.0
  }

  ghost predicate Collinear(points: seq<Point>) {
    forall p, q, r | p in points && q in points && r in points :: Cross(p, q, r) == 0.0
  }

  lemma OnLineIsCollinear(a: Point, b: Point, points: seq<Point>)
    requires a != b && forall p | p in points :: Cross(a, b, p) == 0.0
    ensures Collinear(points)
  {
    forall p, q, r | p in points && q in points && r in points
      ensures Cross(p, q, r) == 0.0
    {
      OnOneLine(a, b, p, q, r);
    }
  }

  lemma FewPointsAreCollinear(points: seq<Point>, unique: seq<Point>)
    requires |unique| < 3 && forall p | p in points :: p in unique
    ensures Collinear(points)
  {
    forall p, q, r | p in points && q in points && r in points
      ensures Cross(p, q, r) == 0.0
    {
      assert p == q || q == r || p == r;
      CrossDegenerate(p, q);
      CrossDegenerate(p, r);
    }
  }

  /** The two chains of a point set: from its first point to its last and back. */
  ghost predicate Chains(lo: seq<Point>, up: seq<Point>, points: seq<Point>) {
    && IsChain(true, lo) && IsChain(false, up)
    && |lo| >= 2 && |up| >= 2
    && up[0] == lo[|lo| - 1] && lo[0] == up[|up| - 1]
    && LeftOfEdges(lo, points) && LeftOfEdges(up, points)
    && (forall p | p in lo + up :: p in points)
  }

  function Joined(lo: seq<Point>, up: seq<Point>): seq<Point>
    requires lo != [] && up != []
  {
    lo[..|lo| - 1] + up[..|up| - 1]
  }

  lemma HullEncloses(lo: seq<Point>, up: seq<Point>, points: seq<Point>)
    requires Chains(lo, up, points)
    ensures Encloses(Joined(lo, up), points)
  {
    var hull := Joined(lo, up);
    var k := |lo| - 1;
    forall i, p | 0 <= i < |hull| && p in points
      ensures Cross(hull[i], hull[Next(|hull|, i)], p) >= 0.0
    {
      if i < k {
        assert hull[i] == lo[i] && hull[Next(|hull|, i)] == lo[i + 1];
      } else {
        assert hull[i] == up[i - k] && hull[Next(|hull|, i)] == up[i - k + 1];
      }
    }
  }

  /** A straight angle where the chains meet would make every point collinear. */
  lemma JunctionTurns(lower: bool, a: Point, m: Point, b: Point, points: seq<Point>)
    requires Ahead(lower, a, m) && Ahead(lower, b, m) && b in points
    requires forall p | p in points :: Cross(a, m, p) >= 0.0 && Cross(m, b, p) >= 0.0
    ensures Cross(a, m, b) > 0.0 || Collinear(points)
  {
    if Cross(a, m, b) == 0.0 {
      forall p | p in points
        ensures Cross(a, m, p) == 0.0
      {
        StraightJunction(lower, a, m, b, p);
      }
      OnLineIsCollinear(a, m, points);
    }
  }

  /** Each vertex triple of the polygon is a triple of one chain, or spans a junction. */
  lemma VertexTriple(lo: seq<Point>, up: seq<Point>, i: nat)
    requires |lo| >= 2 && |up| >= 2 && up[0] == lo[|lo| - 1] && lo[0] == up[|up| - 1]
    requires i < |Joined(lo, up)|
    ensures var hull, k, n := Joined(lo, up), |lo| - 1, |up| - 1;
      var j := Next(|hull|, i);
      (hull[i], hull[j], hull[Next(|hull|, j)]) ==
        if i < k - 1 then (lo[i], lo[i + 1], lo[i + 2])
        else if i == k - 1 then (lo[k - 1], lo[k], up[1])
        else if i < k + n - 1 then (up[i - k], up[i - k + 1], up[i - k + 2])
        else (up[n - 1], up[n], lo[1])
  {
  }

  lemma JunctionsTurn(lo: seq<Point>, up: seq<Point>, points: seq<Point>)
    requires Chains(lo, up, points) && !Collinear(points)
    ensures Cross(lo[|lo| - 2], lo[|lo| - 1], up[1]) > 0.0
    ensures Cross(up[|up| - 2], up[|up| - 1], lo[1]) > 0.0
  {
    assert up[1] in lo + up && lo[1] in lo + up;
    JunctionTurns(true, lo[|lo| - 2], lo[|lo| - 1], up[1], points);
    JunctionTurns(false, up[|up| - 2], up[|up| - 1], lo[1], points);
  }

  lemma HullTurns(lo: seq<Point>, up: seq<Point>, points: seq<Point>)
    requires Chains(lo, up, points) && !Collinear(points)
    ensures TurnsLeft(Joined(lo, up))
  {
    var hull := Joined(lo, up);
    JunctionsTurn(lo, up, points);
    forall i | 0 <= i < |hull|
      ensures var j := Next(|hull|, i); Cross(hull[i], hull[j], hull[Next(|hull|, j)]) > 0.0
    {
      VertexTriple(lo, up, i);
    }
  }

  lemma HullSize(lo: seq<Point>, up: seq<Point>, points: seq<Point>)
    requires Chains(lo, up, points)
    ensures |Joined(lo, up)| >= 3 <==> !Collinear(points)
  {
    if |lo| == 2 && |up| == 2 {
      forall p | p in points
        ensures Cross(lo[0], lo[1], p) == 0.0
      {
        assert Cross(lo[0], lo[1], p) >= 0.0 && Cross(up[0], up[1], p) >= 0.0;
        CrossRotates(lo[1], lo[0], p);
        CrossRotates(lo[0], p, lo[1]);
        CrossSwaps(lo[0], lo[1], p);
      }
      OnLineIsCollinear(lo[0], lo[1], points);
    } else if |lo| >= 3 {
      assert Cross(lo[0], lo[1], lo[2]) > 0.0;
      assert lo[0] in lo + up && lo[1] in lo + up && lo[2] in lo + up;
    } else {
      assert Cross(up[0], up[1], up[2]) > 0.0;
      assert up[0] in lo + up && up[1] in lo + up && up[2] in lo + up;
    }
  }

  lemma ChainDiffers(lower: bool, chain: seq<Point>, i: nat, j: nat)
    requires InOrder(lower, chain) && i < |chain| && j < |chain| && i != j
    ensures chain[i] != chain[j]
  {
    assert i < j ==> Ahead(lower, chain[i], chain[j]);
    assert j < i ==> Ahead(lower, chain[j], chain[i]);
  }

  /** The two chains share only their ends. */
  lemma ChainsMeetAtEnds(lo: seq<Point>, up: seq<Point>, points: seq<Point>, i: nat, j: nat)
    requires Chains(lo, up, points) && i < |lo| - 1 && j < |up| - 1
    ensures lo[i] != up[j]
  {
    if i == 0 {
      ChainDiffers(false, up, j, |up| - 1);
    } else if j == 0 {
      ChainDiffers(true, lo, i, |lo| - 1);
    } else {
      InnerVertices(lo, up, points, i, j);
    }
  }

  lemma InnerVertices(lo: seq<Point>, up: seq<Point>, points: seq<Point>, i: nat, j: nat)
    requires Chains(lo, up, points) && 0 < i < |lo| - 1 && 0 < j < |up| - 1
    ensures lo[i] != up[j]
  {
    var a, b, d, p := lo[i - 1], lo[i + 1], up[j + 1], lo[i];
    assert a in lo + up && b in lo + up;
    assert Ahead(true, a, p) && Ahead(true, p, b) && Ahead(false, up[j], d);
    assert Cross(up[j], up[j + 1], a) >= 0.0 && Cross(up[j], up[j + 1], b) >= 0.0;
    assert Cross(lo[i - 1], lo[i - 1 + 1], lo[i - 1 + 2]) > 0.0;
    if lo[i] == up[j] {
      NotOnBoth(a, b, d, p);
    }
  }

  /** The polygon passes every vertex once. */
  lemma HullDiffers(lo: seq<Point>, up: seq<Point>, points: seq<Point>)
    requires Chains(lo, up, points)
    ensures AllDifferent(Joined(lo, up))
  {
    var hull, k := Joined(lo, up), |lo| - 1;
    forall i, j | 0 <= i < j < |hull|
      ensures hull[i] != hull[j]
    {
      if j < k {
        ChainDiffers(true, lo, i, j);
      } else if i >= k {
        ChainDiffers(false, up, i - k, j - k);
      } else {
        ChainsMeetAtEnds(lo, up, points, i, j - k);
      }
    }
  }

  method RoutingConvexHull(points: seq<Point>) returns (hull: seq<Point>)
    ensures forall p | p in hull :: p in points
    ensures Encloses(hull, points)
    ensures |hull| >= 3 <==> !Collinear(points)
    ensures |hull| >= 3 ==> TurnsLeft(hull)
    ensures AllDifferent(hull)
  {
    if |points| < 3 {
      FewPointsAreCollinear(points, points);
      return [];
    }
    var unique := Distinct(points);
    if |unique| < 3 {
      FewPointsAreCollinear(points, unique);
      return [];
    }
    unique := SortPoints(unique);
    var lo := MonotoneChain(true, unique);
    var back := seq(|unique|, i requires 0 <= i < |unique| => unique[|unique| - 1 - i]);
    assert forall p :: p in back <==> p in unique by {
      assert forall i | 0 <= i < |unique| :: unique[i] == back[|unique| - 1 - i];
    }
    var up := MonotoneChain(false, back);
    assert Chains(lo, up, points);
    HullEncloses(lo, up, points);
    HullSize(lo, up, points);
    HullDiffers(lo, up, points);
    if !Collinear(points) {
      HullTurns(lo, up, points);
    }
    hull := lo[..|lo| - 1] + up[..|up| - 1];
  }
}
