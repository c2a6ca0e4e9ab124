/**
 Douglas-Peucker simplification of lines and rings. The distance of a point from the line through two
 others is left open; nothing below depends on what it is.
 */
module LineSimplify {
  import opened Plane

  function Gather(p: seq<Point>, idx: seq<nat>): (r: seq<Point>)
    requires Below(idx, |p|)
    ensures |r| == |idx| && forall i | 0 <= i < |idx| :: r[i] == p[idx[i]]
  {
    seq(|idx|, i requires 0 <= i < |idx| => p[idx[i]])
  }

  function Shift(idx: seq<nat>, offset: nat): (r: seq<nat>)
    ensures |r| == |idx| && forall i | 0 <= i < |idx| :: r[i] == idx[i] + offset
  {
    seq(|idx|, i requires 0 <= i < |idx| => idx[i] + offset)
  }

  function Count(n: nat): (r: seq<nat>)
    ensures |r| == n && forall i | 0 <= i < n :: r[i] == i
  {
    seq(n, i => i)
  }

  predicate Below(idx: seq<nat>, n: nat) {
    forall i | 0 <= i < |idx| :: idx[i] < n
  }

  /** Strictly increasing positions from the first of n points to the last. */
  predicate Subsequence(idx: seq<nat>, n: nat) {
    && idx != [] && idx[0] == 0 && idx[|idx| - 1] == n - 1
    && Below(idx, n)
    && forall i, j | 0 <= i < j < |idx| :: idx[i] < idx[j]
  }

  /** Positions within p[..m + 1], then positions within p[m..]; both have m. */
  function Join(a: seq<nat>, b: seq<nat>, m: nat): seq<nat>
    requires b != []
  {
    a + Shift(b[1..], m)
  }

  lemma JoinAt(a: seq<nat>, b: seq<nat>, m: nat, i: nat)
    requires a != [] && b != [] && a[|a| - 1] == m && b[0] == 0 && i < |Join(a, b, m)|
    ensures i < |a| ==> Join(a, b, m)[i] == a[i]
    ensures i >= |a| - 1 ==> Join(a, b, m)[i] == b[i - (|a| - 1)] + m
  {
  }

  lemma JoinSubsequence(a: seq<nat>, b: seq<nat>, m: nat, n: nat)
    requires m < n && Subsequence(a, m + 1) && Subsequence(b, n - m)
    ensures Subsequence(Join(a, b, m), n)
  {
    var r := Join(a, b, m);
    forall i, j | 0 <= i < j < |r|
      ensures r[i] < r[j] < n
    {
      JoinAt(a, b, m, i);
      JoinAt(a, b, m, j);
      var k := |a| - 1;
      if i < k < j {
        assert a[i] < a[k] && b[0] < b[j - k];
      }
    }
    JoinAt(a, b, m, |r| - 1);
  }

  lemma JoinLength(a: seq<nat>, b: seq<nat>, m: nat)
    requires a != [] && b != []
    ensures |Join(a, b, m)| == |a| - 1 + |b|
  {
  }

  lemma JoinHoldsFront(a: seq<nat>, b: seq<nat>, m: nat, x: nat)
    requires b != [] && x in a
    ensures x in Join(a, b, m)
  {
    var i :| 0 <= i < |a| && a[i] == x;
    assert Join(a, b, m)[i] == x;
  }

  lemma JoinHoldsBack(a: seq<nat>, b: seq<nat>, m: nat, y: nat)
    requires a != [] && b != [] && a[|a| - 1] == m && b[0] == 0 && y in b
    ensures y + m in Join(a, b, m)
  {
    var i :| 0 <= i < |b| && b[i] == y;
    JoinLength(a, b, m);
    JoinAt(a, b, m, |a| - 1 + i);
    assert Join(a, b, m)[|a| - 1 + i] == y + m;
  }

  lemma JoinHoldsOnly(a: seq<nat>, b: seq<nat>, m: nat, x: nat)
    requires b != [] && x in Join(a, b, m)
    ensures x in a || (x >= m && x - m in b)
  {
    var r := Join(a, b, m);
    var i :| 0 <= i < |r| && r[i] == x;
    if i >= |a| {
      assert r[i] == Shift(b[1..], m)[i - |a|] == b[1..][i - |a|] + m;
      assert b[i - |a| + 1] == x - m;
    } else {
      assert a[i] == x;
    }
  }

  lemma MembersBelow(a: seq<nat>, n: nat, x: nat)
    requires Subsequence(a, n)
    ensures x in a ==> x < n
    ensures n - 1 in a && 0 in a
  {
    assert a[|a| - 1] in a && a[0] in a;
  }

  /** Before position m the joined positions are the first ones, beyond it the second ones. */
  lemma JoinUpTo(a: seq<nat>, b: seq<nat>, m: nat, n: nat, x: nat)
    requires m < n && Subsequence(a, m + 1) && Subsequence(b, n - m) && x < m
    ensures x in Join(a, b, m) <==> x in a
  {
    if x in Join(a, b, m) {
      JoinHoldsOnly(a, b, m, x);
    }
    if x in a {
      JoinHoldsFront(a, b, m, x);
    }
  }

  lemma JoinBeyond(a: seq<nat>, b: seq<nat>, m: nat, n: nat, x: nat, y: nat)
    requires m < n && Subsequence(a, m + 1) && Subsequence(b, n - m) && x == y + m && y > 0
    ensures x in Join(a, b, m) <==> y in b
  {
    MembersBelow(a, m + 1, x);
    if x in Join(a, b, m) {
      JoinHoldsOnly(a, b, m, x);
    }
    if y in b {
      JoinHoldsBack(a, b, m, y);
    }
  }

  lemma GatherJoin(p: seq<Point>, m: nat, a: seq<nat>, b: seq<nat>)
    requires m < |p| && Subsequence(a, m + 1) && Subsequence(b, |p| - m)
    requires Below(Join(a, b, m), |p|)
    ensures Gather(p, Join(a, b, m)) == Gather(p[..m + 1], a) + Gather(p[m..], b)[1..]
  {
  }

  datatype Simplifier = Simplifier(dist: (Point, Point, Point) -> real, tolerance: real) {

    /** How far the i-th point is from the line through the first and the last. */
    function Off(p: seq<Point>, i: nat): real
      requires i < |p|
    {
      dist(p[i], p[0], p[|p| - 1])
    }

    /** Among the inner points before n, the greatest distance above zero and the first to reach it. */
    function FarthestBefore(p: seq<Point>, n: nat): (r: (real, nat))
      requires 1 <= n < |p|
      ensures r.0 >= 0.0 && r.1 < n && (r.0 > 0.0 ==> 0 < r.1 && r.0 == Off(p, r.1))
    {
      if n == 1 then (0.0, 0)
      else
        var best := FarthestBefore(p, n - 1);
        if Off(p, n - 1) > best.0 then (Off(p, n - 1), n - 1) else best
    }

    lemma {:induction false} FarthestBounds(p: seq<Point>, n: nat)
      requires 1 <= n < |p|
      ensures forall i | 0 < i < n :: Off(p, i) <= FarthestBefore(p, n).0
      ensures forall i | 0 < i < FarthestBefore(p, n).1 :: Off(p, i) < FarthestBefore(p, n).0
    {
      if n > 1 {
        FarthestBounds(p, n - 1);
      }
    }

    function Farthest(p: seq<Point>): (real, nat)
      requires |p| >= 2
    {
      FarthestBefore(p, |p| - 1)
    }

    /** Whether a stretch is split at its farthest point. */
    predicate Splits(p: seq<Point>) {
      |p| > 2 && tolerance >= 0.0 && Farthest(p).0 > tolerance
    }

    function SplitAt(p: seq<Point>): (m: nat)
      requires Splits(p)
      ensures 0 < m < |p| - 1
    {
      Farthest(p).1
    }

    /** The positions kept of a stretch of points. */
    function Kept(p: seq<Point>): (idx: seq<nat>)
      requires p != []
      ensures Subsequence(idx, |p|)
      decreases |p|
    {
      if Splits(p) then
        var m := SplitAt(p);
        var a, b := Kept(p[..m + 1]), Kept(p[m..]);
        JoinSubsequence(a, b, m, |p|);
        Join(a, b, m)
      else if |p| == 1 then [0]
      else [0, |p| - 1]
    }

    /** Every point between positions u and v is close to the line through them. */
    ghost predicate Close(p: seq<Point>, u: nat, v: nat)
      requires u < |p| && v < |p|
    {
      forall k | u < k < v :: dist(p[k], p[u], p[v]) <= tolerance
    }

    /** Every point dropped between two neighbours of the result is close to the line through them. */
    ghost predicate WithinTolerance(p: seq<Point>, idx: seq<nat>) {
      Below(idx, |p|) && forall i | 0 <= i < |idx| - 1 :: Close(p, idx[i], idx[i + 1])
    }

    lemma CloseWithin(p: seq<Point>, from: nat, to: nat, u: nat, v: nat)
      requires from <= to <= |p| && u < to - from && v < to - from && Close(p[from..to], u, v)
      ensures Close(p, from + u, from + v)
    {
      forall k | from + u < k < from + v
        ensures dist(p[k], p[from + u], p[from + v]) <= tolerance
      {
        assert p[from..to][k - from] == p[k];
      }
    }

    lemma CloseInFront(p: seq<Point>, m: nat, a: seq<nat>, i: nat)
      requires m < |p| && i + 1 < |a| && WithinTolerance(p[..m + 1], a)
      ensures Below(a, m + 1) && Close(p, a[i], a[i + 1])
    {
      assert p[0..m + 1] == p[..m + 1];
      CloseWithin(p, 0, m + 1, a[i], a[i + 1]);
    }

    lemma CloseInBack(p: seq<Point>, m: nat, b: seq<nat>, i: nat)
      requires m < |p| && i + 1 < |b| && WithinTolerance(p[m..], b)
      ensures Below(b, |p| - m) && Close(p, m + b[i], m + b[i + 1])
    {
      assert p[m..|p|] == p[m..];
      CloseWithin(p, m, |p|, b[i], b[i + 1]);
    }

    lemma JoinTolerance(p: seq<Point>, m: nat, a: seq<nat>, b: seq<nat>)
      requires m < |p| && Subsequence(a, m + 1) && Subsequence(b, |p| - m)
      requires WithinTolerance(p[..m + 1], a) && WithinTolerance(p[m..], b)
      ensures WithinTolerance(p, Join(a, b, m))
    {
      var idx, k := Join(a, b, m), |a| - 1;
      JoinLength(a, b, m);
      JoinSubsequence(a, b, m, |p|);
      forall i | 0 <= i < |idx| - 1
        ensures Close(p, idx[i], idx[i + 1])
      {
        JoinAt(a, b, m, i);
        JoinAt(a, b, m, i + 1);
        if i < k {
          CloseInFront(p, m, a, i);
        } else {
          CloseInBack(p, m, b, i - k);
        }
      }
    }

    lemma UnsplitIsClose(p: seq<Point>)
      requires p != [] && !Splits(p) && tolerance >= 0.0
      ensures WithinTolerance(p, Kept(p))
    {
      if |p| > 2 {
        FarthestBounds(p, |p| - 1);
        forall k | 0 < k < |p| - 1
          ensures dist(p[k], p[0], p[|p| - 1]) <= tolerance
        {
          assert Off(p, k) <= tolerance;
        }
        assert Close(p, 0, |p| - 1);
      }
    }

    lemma KeptSplit(p: seq<Point>)
      requires Splits(p)
      ensures Kept(p) == Join(Kept(p[..SplitAt(p) + 1]), Kept(p[SplitAt(p)..]), SplitAt(p))
    {
    }

    lemma {:induction false} KeptWithinTolerance(p: seq<Point>)
      requires tolerance >= 0.0 && p != []
      ensures WithinTolerance(p, Kept(p))
      decreases |p|
    {
      if Splits(p) {
        var m := SplitAt(p);
        KeptWithinTolerance(p[..m + 1]);
        KeptWithinTolerance(p[m..]);
        var a, b := Kept(p[..m + 1]), Kept(p[m..]);
        JoinTolerance(p, m, a, b);
        KeptSplit(p);
      } else {
        UnsplitIsClose(p);
      }
    }

    // ---- What the tolerance drops ----

    lemma SplitKeepsInner(p: seq<Point>, m: nat)
      requires Splits(p) && m == SplitAt(p)
      ensures Kept(p) != [0, |p| - 1]
    {
      SplitIsMember(p, m);
    }

    lemma FarOrUnsplit(p: seq<Point>)
      requires tolerance >= 0.0 && |p| >= 2
      ensures Splits(p) <==> exists k :: 0 < k < |p| - 1 && dist(p[k], p[0], p[|p| - 1]) > tolerance
    {
      FarthestBounds(p, |p| - 1);
      if k :| 0 < k < |p| - 1 && dist(p[k], p[0], p[|p| - 1]) > tolerance {
        assert Off(p, k) > tolerance;
      }
      if Splits(p) {
        assert Off(p, SplitAt(p)) > tolerance;
      }
    }

    /** Only the ends of a stretch are kept exactly when every inner point is close to the line through them. */
    lemma EndsOnlyIff(p: seq<Point>)
      requires tolerance >= 0.0 && |p| >= 2
      ensures Kept(p) == [0, |p| - 1]
        <==> forall k | 0 < k < |p| - 1 :: dist(p[k], p[0], p[|p| - 1]) <= tolerance
    {
      FarOrUnsplit(p);
      if Splits(p) {
        SplitKeepsInner(p, SplitAt(p));
      }
    }

    /**
     The i-th point is out of tolerance of the line from the u-th to the v-th, and of the points between
     them the first to be as far from it as any.
     */
    ghost predicate Divides(p: seq<Point>, u: nat, i: nat, v: nat) {
      && u < i < v < |p|
      && dist(p[i], p[u], p[v]) > tolerance
      && (forall k | u < k < v :: dist(p[k], p[u], p[v]) <= dist(p[i], p[u], p[v]))
      && (forall k | u < k < i :: dist(p[k], p[u], p[v]) < dist(p[i], p[u], p[v]))
    }

    lemma DividesWithin(p: seq<Point>, from: nat, to: nat, u: nat, i: nat, v: nat, x: nat, y: nat, z: nat)
      requires from <= to <= |p| && Divides(p[from..to], u, i, v)
      requires x == from + u && y == from + i && z == from + v
      ensures Divides(p, x, y, z)
    {
      var q := p[from..to];
      assert q[u] == p[x] && q[i] == p[y] && q[v] == p[z];
      forall k | x < k < z
        ensures dist(p[k], p[x], p[z]) <= dist(p[y], p[x], p[z])
        ensures k < y ==> dist(p[k], p[x], p[z]) < dist(p[y], p[x], p[z])
      {
        assert q[k - from] == p[k];
      }
    }

    /** Two positions kept on either side of a third one. */
    ghost predicate Parts(p: seq<Point>, u: nat, i: nat, v: nat)
      requires p != []
    {
      IsKept(p, u) && IsKept(p, v) && Divides(p, u, i, v)
    }

    lemma SplitParts(p: seq<Point>)
      requires Splits(p)
      ensures Parts(p, 0, SplitAt(p), |p| - 1)
    {
      FarthestBounds(p, |p| - 1);
      MembersBelow(Kept(p), |p|, 0);
      forall k | 0 < k < |p| - 1
        ensures dist(p[k], p[0], p[|p| - 1]) <= dist(p[SplitAt(p)], p[0], p[|p| - 1])
        ensures k < SplitAt(p) ==> dist(p[k], p[0], p[|p| - 1]) < dist(p[SplitAt(p)], p[0], p[|p| - 1])
      {
        assert Off(p, k) <= Farthest(p).0;
      }
    }

    lemma KeptInFront(p: seq<Point>, front: seq<Point>, m: nat, x: nat)
      requires Splits(p) && m == SplitAt(p) && front == p[..m + 1] && IsKept(front, x)
      ensures IsKept(p, x)
    {
      MembersBelow(Kept(front), |front|, x);
      if x < m {
        FrontMembers(p, front, m, x);
      } else {
        SplitIsMember(p, m);
      }
    }

    lemma KeptInBack(p: seq<Point>, back: seq<Point>, m: nat, x: nat, y: nat)
      requires Splits(p) && m == SplitAt(p) && back == p[m..] && m <= x && y == x - m && IsKept(back, y)
      ensures IsKept(p, x)
    {
      MembersBelow(Kept(back), |back|, y);
      if x > m {
        BackMembers(p, back, m, x, y);
      } else {
        SplitIsMember(p, m);
      }
    }

    lemma FrontParts(p: seq<Point>, front: seq<Point>, m: nat, u: nat, i: nat, v: nat)
      requires Splits(p) && m == SplitAt(p) && front == p[..m + 1] && Parts(front, u, i, v)
      ensures Parts(p, u, i, v)
    {
      KeptInFront(p, front, m, u);
      KeptInFront(p, front, m, v);
      assert p[0..m + 1] == front;
      DividesWithin(p, 0, m + 1, u, i, v, u, i, v);
    }

    lemma BackParts(p: seq<Point>, back: seq<Point>, m: nat, u: nat, i: nat, v: nat, x: nat, y: nat, z: nat)
      requires Splits(p) && m == SplitAt(p) && back == p[m..] && Parts(back, u, i, v)
      requires x == m + u && y == m + i && z == m + v
      ensures Parts(p, x, y, z)
    {
      KeptInBack(p, back, m, x, u);
      KeptInBack(p, back, m, z, v);
      assert p[m..|p|] == back;
      DividesWithin(p, m, |p|, u, i, v, x, y, z);
    }

    lemma UnsplitHasNoInner(p: seq<Point>, i: nat)
      requires p != [] && !Splits(p) && IsKept(p, i)
      ensures i == 0 || i == |p| - 1
    {
    }

    /** Every inner point kept is out of tolerance of the line between two others that are kept. */
    lemma {:induction false} KeptDivides(p: seq<Point>, i: nat) returns (u: nat, v: nat)
      requires p != [] && IsKept(p, i) && 0 < i < |p| - 1
      ensures Parts(p, u, i, v)
      decreases |p|
    {
      if !Splits(p) {
        UnsplitHasNoInner(p, i);
        assert false;
      }
      var m := SplitAt(p);
      if i == m {
        SplitParts(p);
        return 0, |p| - 1;
      }
      if i < m {
        FrontMembers(p, p[..m + 1], m, i);
        u, v := KeptDivides(p[..m + 1], i);
        FrontParts(p, p[..m + 1], m, u, i, v);
      } else {
        var j: nat := i - m;
        BackMembers(p, p[m..], m, i, j);
        var x, z := KeptDivides(p[m..], j);
        u, v := m + x, m + z;
        BackParts(p, p[m..], m, x, j, z, u, i, v);
      }
    }

    /** Every inner position divides the stretch between two others. */
    ghost predicate AllDivide(p: seq<Point>, idx: seq<nat>) {
      forall i | i in idx && 0 < i < |p| - 1 :: exists u, v :: u in idx && v in idx && Divides(p, u, i, v)
    }

    lemma KeptAllDivide(p: seq<Point>)
      requires p != []
      ensures AllDivide(p, Kept(p))
    {
      forall i | i in Kept(p) && 0 < i < |p| - 1
        ensures exists u, v :: u in Kept(p) && v in Kept(p) && Divides(p, u, i, v)
      {
        var u, v := KeptDivides(p, i);
        assert u in Kept(p) && v in Kept(p);
      }
    }

    /** The points kept, without reference to positions. */
    function KeptPoints(p: seq<Point>): (r: seq<Point>)
      requires p != []
      ensures r != [] && r[0] == p[0] && r[|r| - 1] == p[|p| - 1]
      ensures |p| >= 2 ==> |r| >= 2
      decreases |p|
    {
      if Splits(p) then KeptPoints(p[..SplitAt(p) + 1]) + KeptPoints(p[SplitAt(p)..])[1..]
      else if |p| == 1 then p
      else [p[0], p[|p| - 1]]
    }

    lemma KeptPointsSplit(p: seq<Point>)
      requires Splits(p)
      ensures KeptPoints(p) == KeptPoints(p[..SplitAt(p) + 1]) + KeptPoints(p[SplitAt(p)..])[1..]
    {
    }

    lemma {:induction false} KeptPointsAreKept(p: seq<Point>)
      requires p != []
      ensures KeptPoints(p) == Gather(p, Kept(p))
      decreases |p|
    {
      if Splits(p) {
        var m := SplitAt(p);
        KeptPointsAreKept(p[..m + 1]);
        KeptPointsAreKept(p[m..]);
        KeptSplit(p);
        GatherJoin(p, m, Kept(p[..m + 1]), Kept(p[m..]));
        KeptPointsSplit(p);
      }
    }

    /** Inner points of the result are inner points of the input. */
    lemma InnerKept(p: seq<Point>, i: nat) returns (k: nat)
      requires p != [] && 0 < i < |KeptPoints(p)| - 1
      ensures 0 < k < |p| - 1 && KeptPoints(p)[i] == p[k]
    {
      KeptPointsAreKept(p);
      var idx := Kept(p);
      k := idx[i];
      assert idx[0] < idx[i] < idx[|idx| - 1];
    }

    /** The first greatest distance is the only one of its kind. */
    lemma FarthestIs(p: seq<Point>, n: nat, m: nat)
      requires 0 < m < n < |p| && Off(p, m) > 0.0
      requires forall i | 0 < i < m :: Off(p, i) < Off(p, m)
      requires forall i | 0 < i < n :: Off(p, i) <= Off(p, m)
      ensures FarthestBefore(p, n) == (Off(p, m), m)
    {
      FarthestBounds(p, n);
      var r := FarthestBefore(p, n);
      assert Off(p, m) <= r.0;
    }

    /** The points kept on both sides of a split, put together. */
    function Rejoined(p: seq<Point>): seq<Point>
      requires Splits(p)
    {
      KeptPoints(p[..SplitAt(p) + 1]) + KeptPoints(p[SplitAt(p)..])[1..]
    }

    lemma SameEnds(p: seq<Point>)
      requires Splits(p)
      ensures var q := Rejoined(p); |q| >= 3 && q[0] == p[0] && q[|q| - 1] == p[|p| - 1]
    {
    }

    lemma FrontIsNearer(p: seq<Point>, i: nat)
      requires Splits(p) && 0 < i < |KeptPoints(p[..SplitAt(p) + 1])| - 1
      ensures Off(Rejoined(p), i) < Farthest(p).0
    {
      FarthestBounds(p, |p| - 1);
      var front := p[..SplitAt(p) + 1];
      var k := InnerKept(front, i);
      assert Rejoined(p)[i] == KeptPoints(front)[i] == front[k] == p[k];
      SameEnds(p);
      assert Off(Rejoined(p), i) == Off(p, k);
    }

    lemma BackIsNoFarther(p: seq<Point>, i: nat)
      requires Splits(p) && |KeptPoints(p[..SplitAt(p) + 1])| <= i < |Rejoined(p)| - 1
      ensures Off(Rejoined(p), i) <= Farthest(p).0
    {
      FarthestBounds(p, |p| - 1);
      var m := SplitAt(p);
      var b := KeptPoints(p[m..]);
      var j := i - |KeptPoints(p[..m + 1])| + 1;
      var k := InnerKept(p[m..], j);
      assert Rejoined(p)[i] == b[j] == p[m + k];
      SameEnds(p);
      assert Off(Rejoined(p), i) == Off(p, m + k);
    }

    /** What was kept splits at the same point. */
    lemma SameSplit(p: seq<Point>)
      requires Splits(p)
      ensures Splits(Rejoined(p))
      ensures SplitAt(Rejoined(p)) == |KeptPoints(p[..SplitAt(p) + 1])| - 1
    {
      var q, split := Rejoined(p), |KeptPoints(p[..SplitAt(p) + 1])| - 1;
      assert Off(q, split) == Farthest(p).0;
      forall i | 0 < i < |q| - 1
        ensures i < split ==> Off(q, i) < Farthest(p).0
        ensures Off(q, i) <= Farthest(p).0
      {
        if i < split {
          FrontIsNearer(p, i);
        } else if i > split {
          BackIsNoFarther(p, i);
        }
      }
      FarthestIs(q, |q| - 1, split);
    }

    lemma SplitKeptPoints(q: seq<Point>, a: seq<Point>, b: seq<Point>)
      requires a != [] && b != [] && a[|a| - 1] == b[0] && q == a + b[1..]
      requires Splits(q) && SplitAt(q) == |a| - 1
      ensures KeptPoints(q) == KeptPoints(a) + KeptPoints(b)[1..]
    {
      assert q[..|a|] == a && q[|a| - 1..] == b;
    }

    /** Simplifying a second time changes nothing. */
    lemma {:induction false} KeptPointsIdempotent(p: seq<Point>)
      requires p != []
      ensures KeptPoints(KeptPoints(p)) == KeptPoints(p)
      decreases |p|
    {
      if Splits(p) {
        var front, back := p[..SplitAt(p) + 1], p[SplitAt(p)..];
        KeptPointsIdempotent(front);
        KeptPointsIdempotent(back);
        SameSplit(p);
        SplitKeptPoints(Rejoined(p), KeptPoints(front), KeptPoints(back));
      }
    }

    // ---- The shared keep array ----

    predicate IsKept(p: seq<Point>, x: int)
      requires p != []
    {
      x in Kept(p)
    }

    /** The inner positions kept of the stretch from start to end, in positions of the whole line. */
    predicate KeptAt(points: seq<Point>, start: nat, end: nat, i: nat)
      requires start <= end < |points|
    {
      start < i < end && IsKept(points[start..end + 1], i - start)
    }

    method FindFarthest(points: seq<Point>, start: nat, end: nat) returns (maxDistance: real, maxIndex: nat)
      requires start < end < |points|
      ensures start <= maxIndex < end
      ensures (maxDistance, maxIndex - start) == Farthest(points[start..end + 1])
    {
      ghost var p := points[start..end + 1];
      maxDistance, maxIndex := 0.0, start;
      for i := start + 1 to end
        invariant start <= maxIndex < i
        invariant (maxDistance, maxIndex - start) == FarthestBefore(p, i - start)
      {
        assert p[i - start] == points[i];
        var distance := dist(points[i], points[start], points[end]);
        if distance > maxDistance {
          maxDistance, maxIndex := distance, i;
        }
      }
    }

    lemma FrontMembers(p: seq<Point>, front: seq<Point>, m: nat, x: nat)
      requires Splits(p) && m == SplitAt(p) && front == p[..m + 1] && x < m
      ensures IsKept(p, x) <==> IsKept(front, x)
    {
      KeptSplit(p);
      JoinUpTo(Kept(front), Kept(p[m..]), m, |p|, x);
    }

    lemma BackMembers(p: seq<Point>, back: seq<Point>, m: nat, x: nat, y: nat)
      requires Splits(p) && m == SplitAt(p) && back == p[m..] && m < x < |p| && y == x - m
      ensures IsKept(p, x) <==> IsKept(back, y)
    {
      KeptSplit(p);
      JoinBeyond(Kept(p[..m + 1]), Kept(back), m, |p|, x, y);
    }

    lemma SplitIsMember(p: seq<Point>, m: nat)
      requires Splits(p) && m == SplitAt(p)
      ensures IsKept(p, m)
    {
      KeptSplit(p);
      MembersBelow(Kept(p[..m + 1]), m + 1, m);
      JoinHoldsFront(Kept(p[..m + 1]), Kept(p[m..]), m, m);
    }

    lemma SliceHalves(points: seq<Point>, start: nat, end: nat, split: nat)
      requires start <= split <= end < |points|
      ensures points[start..split + 1] == points[start..end + 1][..split - start + 1]
      ensures points[split..end + 1] == points[start..end + 1][split - start..]
    {
    }

    lemma KeptBefore(points: seq<Point>, start: nat, end: nat, split: nat, i: nat)
      requires start < end < |points| && Splits(points[start..end + 1])
      requires split == start + SplitAt(points[start..end + 1]) && i < split
      ensures KeptAt(points, start, end, i) <==> KeptAt(points, start, split, i)
    {
      if start < i {
        SliceHalves(points, start, end, split);
        FrontMembers(points[start..end + 1], points[start..split + 1], split - start, i - start);
      }
    }

    lemma KeptAfter(points: seq<Point>, start: nat, end: nat, split: nat, i: nat)
      requires start < end < |points| && Splits(points[start..end + 1])
      requires split == start + SplitAt(points[start..end + 1]) && i > split
      ensures KeptAt(points, start, end, i) <==> KeptAt(points, split, end, i)
    {
      if i < end {
        SliceHalves(points, start, end, split);
        BackMembers(points[start..end + 1], points[split..end + 1], split - start, i - start, i - split);
      }
    }

    lemma SplitIsKept(points: seq<Point>, start: nat, end: nat, split: nat)
      requires start < end < |points| && Splits(points[start..end + 1])
      requires split == start + SplitAt(points[start..end + 1])
      ensures KeptAt(points, start, end, split)
    {
      SplitIsMember(points[start..end + 1], split - start);
    }

    method DouglasPeucker(points: seq<Point>, keep: array<bool>, start: nat, end: nat)
      requires tolerance >= 0.0 && start <= end < |points| == keep.Length
      modifies keep
      ensures forall i | 0 <= i < keep.Length :: keep[i] <==> old(keep[i]) || KeptAt(points, start, end, i)
      decreases end - start
    {
      if end <= start + 1 {
        return;
      }
      var maxDistance, maxIndex := FindFarthest(points, start, end);
      if maxDistance > tolerance {
        keep[maxIndex] := true;
        DouglasPeucker(points, keep, start, maxIndex);
        DouglasPeucker(points, keep, maxIndex, end);
        SplitIsKept(points, start, end, maxIndex);
        forall i: nat | i < maxIndex
          ensures KeptAt(points, start, end, i) <==> KeptAt(points, start, maxIndex, i)
        {
          KeptBefore(points, start, end, maxIndex, i);
        }
        forall i: nat | i > maxIndex
          ensures KeptAt(points, start, end, i) <==> KeptAt(points, maxIndex, end, i)
        {
          KeptAfter(points, start, end, maxIndex, i);
        }
      }
    }
  }
}
