/** Orientation of points in the plane, and the few facts about it that a hull needs. */
module HullGeometry {
  import opened Plane

  /** Positive when origin, first, second turn left. */
  function Cross(origin: Point, first: Point, second: Point): real {
    Turn(first.x - origin.x, first.y - origin.y, second.x - origin.x, second.y - origin.y)
  }

  function Turn(ux: real, uy: real, vx: real, vy: real): real {
    ux * vy - uy * vx
  }

  /** The turn is counter-clockwise with x to the right and y upwards: a point is left of a line running right if it is above. */
  lemma CrossIsCounterClockwise(a: Point, b: Point, c: Point)
    ensures Cross(a, b, c) == (b.x - a.x) * (c.y - a.y) - (b.y - a.y) * (c.x - a.x)
    ensures a.y == b.y && a.x < b.x ==> (Cross(a, b, c) > 0.0 <==> c.y > a.y)
    ensures Cross(a, b, c) == Cross(b, c, a) == -Cross(b, a, c)
  {
    if a.y == b.y && a.x < b.x {
      assert Cross(a, b, c) == (b.x - a.x) * (c.y - a.y);
      ProductSign(b.x - a.x, c.y - a.y);
      ProductSign(b.x - a.x, a.y - c.y);
    }
  }

  /** The sort order: by x, then by y. */
  predicate Before(a: Point, b: Point) {
    a.x < b.x || (a.x == b.x && a.y < b.y)
  }

  /** The order in which a chain visits points: sorted for the lower one, reversed for the upper one. */
  predicate Ahead(lower: bool, a: Point, b: Point) {
    if lower then Before(a, b) else Before(b, a)
  }

  predicate Forward(x: real, y: real) {
    x > 0.0 || (x == 0.0 && y > 0.0)
  }

  lemma ProductSign(a: real, b: real)
    ensures a >= 0.0 && b >= 0.0 ==> a * b >= 0.0
    ensures a > 0.0 && b > 0.0 ==> a * b > 0.0
    ensures a > 0.0 && a * b >= 0.0 ==> b >= 0.0
    ensures a > 0.0 && a * b > 0.0 ==> b > 0.0
  {
  }

  lemma TurnIdentity(ux: real, uy: real, vx: real, vy: real, wx: real, wy: real)
    ensures vx * Turn(ux, uy, wx, wy) == ux * Turn(vx, vy, wx, wy) + wx * Turn(ux, uy, vx, vy)
  {
  }

  /** Among directions within a half-turn, "not clockwise of" is transitive. */
  lemma TurnTransitive(ux: real, uy: real, vx: real, vy: real, wx: real, wy: real)
    requires Forward(ux, uy) && Forward(vx, vy) && Forward(wx, wy)
    requires Turn(ux, uy, vx, vy) >= 0.0 && Turn(vx, vy, wx, wy) >= 0.0
    ensures Turn(ux, uy, wx, wy) >= 0.0
    ensures Turn(ux, uy, vx, vy) > 0.0 && Turn(vx, vy, wx, wy) > 0.0 ==> Turn(ux, uy, wx, wy) > 0.0
  {
    var a, b := Turn(ux, uy, vx, vy), Turn(vx, vy, wx, wy);
    if vx > 0.0 {
      TurnIdentity(ux, uy, vx, vy, wx, wy);
      ProductSign(ux, b);
      ProductSign(wx, a);
      ProductSign(vx, Turn(ux, uy, wx, wy));
      if ux == 0.0 {
        ProductSign(uy, vx);
      }
    } else {
      ProductSign(vy, wx);
      assert wx == 0.0;
      ProductSign(ux, wy);
    }
  }

  lemma CrossRotates(a: Point, b: Point, c: Point)
    ensures Cross(a, b, c) == Cross(b, c, a)
  {
  }

  lemma CrossSwaps(a: Point, b: Point, c: Point)
    ensures Cross(a, c, b) == -Cross(a, b, c)
  {
  }

  lemma CrossDegenerate(a: Point, b: Point)
    ensures Cross(a, b, a) == 0.0 && Cross(a, b, b) == 0.0 && Cross(a, a, b) == 0.0
  {
  }

  lemma BeforeTotal(lower: bool, a: Point, b: Point)
    ensures a == b || Ahead(lower, a, b) || Ahead(lower, b, a)
    ensures !(Ahead(lower, a, b) && Ahead(lower, b, a))
  {
  }

  /** Seen from o, with all three points on the same side of it. */
  lemma Fan(lower: bool, o: Point, p: Point, q: Point, r: Point)
    requires (Ahead(lower, o, p) && Ahead(lower, o, q) && Ahead(lower, o, r))
          || (Ahead(lower, p, o) && Ahead(lower, q, o) && Ahead(lower, r, o))
    requires Cross(o, p, q) >= 0.0 && Cross(o, q, r) >= 0.0
    ensures Cross(o, p, r) >= 0.0
  {
    if Before(o, p) {
      TurnTransitive(p.x - o.x, p.y - o.y, q.x - o.x, q.y - o.y, r.x - o.x, r.y - o.y);
    } else {
      Negate(p.x - o.x, p.y - o.y, q.x - o.x, q.y - o.y);
      Negate(q.x - o.x, q.y - o.y, r.x - o.x, r.y - o.y);
      Negate(p.x - o.x, p.y - o.y, r.x - o.x, r.y - o.y);
      TurnTransitive(o.x - p.x, o.y - p.y, o.x - q.x, o.y - q.y, o.x - r.x, o.y - r.y);
    }
  }

  lemma Negate(ux: real, uy: real, vx: real, vy: real)
    ensures Turn(-ux, -uy, -vx, -vy) == Turn(ux, uy, vx, vy)
  {
  }

  /** Round a left turn at b, what was left of the edge into b is left of the edge out of it. */
  lemma Corner(lower: bool, a: Point, b: Point, q: Point, p: Point)
    requires Ahead(lower, a, b) && Ahead(lower, b, q) && Ahead(lower, p, b)
    requires Cross(a, b, p) >= 0.0 && Cross(a, b, q) > 0.0
    ensures Cross(b, q, p) >= 0.0
  {
    assert Turn(b.x - p.x, b.y - p.y, b.x - a.x, b.y - a.y) == Cross(a, b, p);
    assert Turn(b.x - a.x, b.y - a.y, q.x - b.x, q.y - b.y) == Cross(a, b, q);
    assert Turn(b.x - p.x, b.y - p.y, q.x - b.x, q.y - b.y) == Cross(b, q, p);
    ThreeDirections(lower, b.x - p.x, b.y - p.y, b.x - a.x, b.y - a.y, q.x - b.x, q.y - b.y);
  }

  lemma ThreeDirections(lower: bool, ux: real, uy: real, vx: real, vy: real, wx: real, wy: real)
    requires if lower then Forward(ux, uy) && Forward(vx, vy) && Forward(wx, wy)
             else Forward(-ux, -uy) && Forward(-vx, -vy) && Forward(-wx, -wy)
    requires Turn(ux, uy, vx, vy) >= 0.0 && Turn(vx, vy, wx, wy) >= 0.0
    ensures Turn(ux, uy, wx, wy) >= 0.0
    ensures Turn(ux, uy, vx, vy) > 0.0 && Turn(vx, vy, wx, wy) > 0.0 ==> Turn(ux, uy, wx, wy) > 0.0
  {
    if lower {
      TurnTransitive(ux, uy, vx, vy, wx, wy);
    } else {
      Negate(ux, uy, vx, vy);
      Negate(vx, vy, wx, wy);
      Negate(ux, uy, wx, wy);
      TurnTransitive(-ux, -uy, -vx, -vy, -wx, -wy);
    }
  }

  lemma TurnFromEdge(ux: real, uy: real, vx: real, vy: real)
    ensures Turn(ux, uy, vx - ux, vy - uy) == Turn(ux, uy, vx, vy)
  {
  }

  /** Two left turns in a row: a point left of the second edge and beyond it is left of the first. */
  lemma TwoTurns(lower: bool, a: Point, b: Point, c: Point, q: Point)
    requires Ahead(lower, a, b) && Ahead(lower, b, c) && Ahead(lower, b, q)
    requires Cross(a, b, c) > 0.0 && Cross(b, c, q) > 0.0
    ensures Cross(a, b, q) > 0.0
  {
    TurnFromEdge(b.x - a.x, b.y - a.y, c.x - a.x, c.y - a.y);
    TurnFromEdge(b.x - a.x, b.y - a.y, q.x - a.x, q.y - a.y);
    ThreeDirections(lower, b.x - a.x, b.y - a.y, c.x - b.x, c.y - b.y, q.x - b.x, q.y - b.y);
  }

  /** Points on the line through two different points turn neither way. */
  lemma OnOneLine(a: Point, b: Point, p: Point, q: Point, r: Point)
    requires a != b
    requires Cross(a, b, p) == 0.0 && Cross(a, b, q) == 0.0 && Cross(a, b, r) == 0.0
    ensures Cross(p, q, r) == 0.0
  {
    var dx, dy := b.x - a.x, b.y - a.y;
    TurnDifference(dx, dy, q.x - a.x, q.y - a.y, p.x - a.x, p.y - a.y);
    TurnDifference(dx, dy, r.x - a.x, r.y - a.y, p.x - a.x, p.y - a.y);
    ParallelPair(dx, dy, q.x - p.x, q.y - p.y, r.x - p.x, r.y - p.y);
  }

  lemma TurnDifference(dx: real, dy: real, ux: real, uy: real, vx: real, vy: real)
    ensures Turn(dx, dy, ux - vx, uy - vy) == Turn(dx, dy, ux, uy) - Turn(dx, dy, vx, vy)
  {
  }

  lemma ZeroProduct(a: real, b: real)
    requires a * b == 0.0 && a != 0.0
    ensures b == 0.0
  {
  }

  lemma ParallelPair(dx: real, dy: real, ux: real, uy: real, vx: real, vy: real)
    requires dx != 0.0 || dy != 0.0
    requires Turn(dx, dy, ux, uy) == 0.0 && Turn(dx, dy, vx, vy) == 0.0
    ensures Turn(ux, uy, vx, vy) == 0.0
  {
    if dx != 0.0 {
      TurnIdentity(ux, uy, dx, dy, vx, vy);
      assert Turn(ux, uy, dx, dy) == -Turn(dx, dy, ux, uy);
      ZeroProduct(dx, Turn(ux, uy, vx, vy));
    } else {
      ZeroProduct(dy, ux);
      ZeroProduct(dy, vx);
    }
  }

  /** No point lies between two parallel directions that bound it from both sides. */
  lemma Squeezed(ux: real, uy: real, wx: real, wy: real, zx: real, zy: real)
    requires Forward(ux, uy) && Forward(wx, wy) && Turn(ux, uy, wx, wy) == 0.0
    requires Turn(ux, uy, zx, zy) <= 0.0 && Turn(wx, wy, zx, zy) >= 0.0
    ensures Turn(ux, uy, zx, zy) == 0.0
  {
    if ux > 0.0 {
      TurnIdentity(wx, wy, ux, uy, zx, zy);
      assert Turn(wx, wy, ux, uy) == 0.0;
      ProductSign(ux, Turn(wx, wy, zx, zy));
      if wx == 0.0 {
        ProductSign(ux, wy);
      }
      ProductSign(wx, -Turn(ux, uy, zx, zy));
    } else {
      ZeroProduct(uy, wx);
      ProductSign(uy, zx);
      ProductSign(wy, -zx);
    }
  }

  /** Where the two chains meet, a straight angle leaves no room for any other point. */
  lemma StraightJunction(lower: bool, a: Point, m: Point, b: Point, p: Point)
    requires Ahead(lower, a, m) && Ahead(lower, b, m)
    requires Cross(a, m, b) == 0.0 && Cross(a, m, p) >= 0.0 && Cross(m, b, p) >= 0.0
    ensures Cross(a, m, p) == 0.0
  {
    var ux, uy, wx, wy, zx, zy := m.x - a.x, m.y - a.y, m.x - b.x, m.y - b.y, m.x - p.x, m.y - p.y;
    TurnFromEdge(ux, uy, b.x - a.x, b.y - a.y);
    TurnFromEdge(ux, uy, p.x - a.x, p.y - a.y);
    TurnReverses(ux, uy, wx, wy);
    TurnReverses(ux, uy, zx, zy);
    Negate(wx, wy, zx, zy);
    if lower {
      Squeezed(ux, uy, wx, wy, zx, zy);
    } else {
      Negate(ux, uy, wx, wy);
      Negate(ux, uy, zx, zy);
      Squeezed(-ux, -uy, -wx, -wy, -zx, -zy);
    }
  }

  /** At a left turn of the one chain, an edge back to the left of what came before is to the right of what follows. */
  lemma TurnAway(ux: real, uy: real, vx: real, vy: real, zx: real, zy: real)
    requires Forward(ux, uy) && Forward(vx, vy) && Forward(zx, zy)
    requires Turn(ux, uy, vx, vy) > 0.0 && Turn(zx, zy, ux, uy) >= 0.0
    ensures Turn(zx, zy, vx, vy) > 0.0
  {
    TurnTransitive(zx, zy, ux, uy, vx, vy);
    if Turn(zx, zy, vx, vy) == 0.0 {
      assert Turn(vx, vy, zx, zy) == 0.0;
      TurnTransitive(ux, uy, vx, vy, zx, zy);
      assert Turn(ux, uy, zx, zy) == -Turn(zx, zy, ux, uy);
      ParallelPair(zx, zy, ux, uy, vx, vy);
    }
  }

  /** No point is an inner vertex of both chains. */
  lemma NotOnBoth(a: Point, b: Point, d: Point, p: Point)
    requires Before(a, p) && Before(p, b) && Before(d, p)
    requires Cross(a, p, b) > 0.0 && Cross(p, d, a) >= 0.0
    ensures Cross(p, d, b) < 0.0
  {
    var ux, uy, vx, vy, zx, zy := p.x - a.x, p.y - a.y, b.x - p.x, b.y - p.y, p.x - d.x, p.y - d.y;
    TurnFromPoint(ux, uy, vx, vy);
    Negate(zx, zy, ux, uy);
    TurnReverses(zx, zy, vx, vy);
    TurnAway(ux, uy, vx, vy, zx, zy);
    assert Cross(p, d, b) == Turn(-zx, -zy, vx, vy);
    Negate(zx, zy, -vx, -vy);
  }

  lemma TurnFromPoint(ux: real, uy: real, vx: real, vy: real)
    ensures Turn(ux, uy, ux + vx, uy + vy) == Turn(ux, uy, vx, vy)
  {
  }

  lemma TurnReverses(ux: real, uy: real, vx: real, vy: real)
    ensures Turn(ux, uy, -vx, -vy) == -Turn(ux, uy, vx, vy)
  {
  }
}
