/** Simplifying whole lines and rings: what is kept, that rings stay rings, and that once is enough. */
module LineRings {
  import opened Plane
  import opened LineSimplify

  /** The stretch that is simplified: a closed ring without its closing point. */
  function Input(points: seq<Point>, closed: bool): (input: seq<Point>)
    requires points != []
    ensures input != []
  {
    if closed && points[0] == points[|points| - 1] && |points| > 1 then points[..|points| - 1] else points
  }

  function SimplifiedLine(s: Simplifier, points: seq<Point>, minPoints: nat, closed: bool): seq<Point> {
    if |points| <= minPoints || s.tolerance <= 0.0 then points
    else
      var input := Input(points, closed);
      if |input| <= minPoints then points
      else
        var out := s.KeptPoints(input);
        if |out| < minPoints then points
        else if closed then if |out| + 1 < 4 then points else out + [out[0]]
        else out
  }

  lemma NextPosition(idx: seq<nat>, n: nat, c: nat, i: nat)
    requires Subsequence(idx, n) && c <= |idx| && i in idx
    requires forall j | 0 <= j < c :: idx[j] < i
    requires forall j | c <= j < |idx| :: idx[j] >= i
    ensures c < |idx| && idx[c] == i
  {
    var j :| 0 <= j < |idx| && idx[j] == i;
    assert c == j || idx[c] < idx[j];
  }

  /** The points whose flag is set, in order. */
  method Collect(points: seq<Point>, keep: array<bool>, ghost idx: seq<nat>) returns (out: seq<Point>)
    requires |points| == keep.Length && Subsequence(idx, |points|)
    requires forall i | 0 <= i < keep.Length :: keep[i] <==> i in idx
    ensures out == Gather(points, idx)
  {
    out := [];
    ghost var c := 0;
    for i := 0 to |points|
      invariant 0 <= c <= |idx| && out == Gather(points, idx[..c])
      invariant forall j | 0 <= j < c :: idx[j] < i
      invariant forall j | c <= j < |idx| :: idx[j] >= i
    {
      if keep[i] {
        NextPosition(idx, |points|, c, i);
        out := out + [points[i]];
        c := c + 1;
      }
    }
    assert idx[..|idx|] == idx;
  }

  lemma FlagsAreKept(s: Simplifier, input: seq<Point>, i: nat)
    requires input != [] && i < |input|
    ensures i in s.Kept(input) <==> i == 0 || i == |input| - 1 || s.KeptAt(input, 0, |input| - 1, i)
  {
    MembersBelow(s.Kept(input), |input|, i);
    assert input[0..|input| - 1 + 1] == input;
  }

  method Thinned(s: Simplifier, input: seq<Point>) returns (out: seq<Point>)
    requires input != [] && s.tolerance >= 0.0
    ensures out == s.KeptPoints(input)
  {
    var keep := new bool[|input|](i => false);
    keep[0] := true;
    keep[|input| - 1] := true;
    s.DouglasPeucker(input, keep, 0, |input| - 1);
    forall i | 0 <= i < keep.Length
      ensures keep[i] <==> i in s.Kept(input)
    {
      FlagsAreKept(s, input, i);
    }
    out := Collect(input, keep, s.Kept(input));
    s.KeptPointsAreKept(input);
  }

  /**
   What simplifying comes to, without reference to how it is found: positions are kept from which every
   other point is within the tolerance and among which every inner one is needed, unless too few remain.
   */
  ghost predicate Simplifies(s: Simplifier, points: seq<Point>, minPoints: nat, closed: bool, idx: seq<nat>, out: seq<Point>) {
    points != [] &&
    var ring := closed && |points| > 1 && points[0] == points[|points| - 1];
    var input := if ring then points[..|points| - 1] else points;
    && Subsequence(idx, |input|)
    && (s.tolerance >= 0.0 ==> s.WithinTolerance(input, idx)) && s.AllDivide(input, idx)
    && out == if s.tolerance <= 0.0 || |input| <= minPoints || |idx| < minPoints || (closed && |idx| < 3) then points
              else Gather(input, idx) + if closed then [points[0]] else []
  }

  lemma SimplifiedExactly(s: Simplifier, points: seq<Point>, minPoints: nat, closed: bool) returns (idx: seq<nat>)
    requires points != []
    ensures Simplifies(s, points, minPoints, closed, idx, SimplifiedLine(s, points, minPoints, closed))
  {
    var input := Input(points, closed);
    idx := s.Kept(input);
    if s.tolerance >= 0.0 {
      s.KeptWithinTolerance(input);
    }
    s.KeptAllDivide(input);
    s.KeptPointsAreKept(input);
  }

  /** An open line is simplified to its ends exactly when every inner point is within the tolerance of their line. */
  lemma StraightenedIff(s: Simplifier, points: seq<Point>)
    requires s.tolerance > 0.0 && |points| >= 2
    ensures SimplifiedLine(s, points, 2, false) == [points[0], points[|points| - 1]]
      <==> forall k | 0 < k < |points| - 1 :: s.dist(points[k], points[0], points[|points| - 1]) <= s.tolerance
  {
    s.EndsOnlyIff(points);
    s.KeptPointsAreKept(points);
    if |points| > 2 && |s.Kept(points)| == 2 {
      assert s.Kept(points) == [0, |points| - 1];
    }
  }

  method SimplifyLine(s: Simplifier, points: seq<Point>, minPoints: nat, closed: bool) returns (out: seq<Point>)
    ensures out == SimplifiedLine(s, points, minPoints, closed)
    ensures points != [] ==> exists idx :: Simplifies(s, points, minPoints, closed, idx, out)
  {
    ghost var idx := [];
    if points != [] {
      idx := SimplifiedExactly(s, points, minPoints, closed);
    }
    if |points| <= minPoints || s.tolerance <= 0.0 {
      return points;
    }
    var input := Input(points, closed);
    if |input| <= minPoints {
      return points;
    }
    out := Thinned(s, input);
    if |out| < minPoints {
      return points;
    }
    if closed {
      out := out + [out[0]];
      if |out| < 4 {
        return points;
      }
    }
  }

  method SimplifyPolygon(s: Simplifier, rings: seq<seq<Point>>) returns (out: seq<seq<Point>>)
    ensures |out| == |rings|
    ensures forall i | 0 <= i < |rings| :: out[i] == SimplifiedLine(s, rings[i], 4, true)
  {
    out := [];
    for i := 0 to |rings|
      invariant |out| == i
      invariant forall j | 0 <= j < i :: out[j] == SimplifiedLine(s, rings[j], 4, true)
    {
      var ring := SimplifyLine(s, rings[i], 4, true);
      out := out + [ring];
    }
  }

  predicate IsClosed(points: seq<Point>) {
    points != [] && points[0] == points[|points| - 1]
  }

  lemma AllPositions(s: Simplifier, points: seq<Point>)
    requires points != []
    ensures Subsequence(Count(|points|), |points|) && Gather(points, Count(|points|)) == points
    ensures s.WithinTolerance(points, Count(|points|))
  {
  }

  /** Putting the closing point back after simplifying the rest of a ring. */
  lemma CloseAgain(s: Simplifier, points: seq<Point>, idx: seq<nat>)
    requires |points| > 1 && IsClosed(points)
    requires Subsequence(idx, |points| - 1) && s.WithinTolerance(points[..|points| - 1], idx)
    ensures var all := idx + [|points| - 1];
      && Subsequence(all, |points|) && s.WithinTolerance(points, all)
      && Gather(points, all) == Gather(points[..|points| - 1], idx) + [points[0]]
  {
    var n := |points| - 1;
    var input, all := points[..n], idx + [n];
    assert points[0..n] == input;
    forall i | 0 <= i < |all| - 1
      ensures s.Close(points, all[i], all[i + 1])
    {
      if i + 1 < |idx| {
        s.CloseWithin(points, 0, n, idx[i], idx[i + 1]);
      }
    }
  }

  /**
   Simplifying keeps a subsequence with both ends, and every point it drops is within the tolerance of
   the line through the neighbours that remain.
   */
  lemma SimplifyKeepsShape(s: Simplifier, points: seq<Point>, minPoints: nat, closed: bool) returns (idx: seq<nat>)
    requires points != [] && (closed ==> IsClosed(points))
    ensures Subsequence(idx, |points|)
    ensures SimplifiedLine(s, points, minPoints, closed) == Gather(points, idx)
    ensures s.WithinTolerance(points, idx)
  {
    var input := Input(points, closed);
    if SimplifiedLine(s, points, minPoints, closed) == points {
      AllPositions(s, points);
      idx := Count(|points|);
    } else {
      s.KeptWithinTolerance(input);
      s.KeptPointsAreKept(input);
      idx := s.Kept(input);
      if closed {
        CloseAgain(s, points, idx);
        idx := idx + [|points| - 1];
      }
    }
  }

  /** A closed ring of four or more points stays one. */
  lemma RingStaysRing(s: Simplifier, points: seq<Point>, minPoints: nat)
    requires |points| >= 4 && IsClosed(points)
    ensures |SimplifiedLine(s, points, minPoints, true)| >= 4
    ensures IsClosed(SimplifiedLine(s, points, minPoints, true))
  {
  }

  /** The guards under which simplifying replaces an open line; what is kept of it then has three points. */
  predicate Replaces(s: Simplifier, points: seq<Point>, minPoints: nat) {
    s.tolerance > 0.0 && |points| > minPoints && points != [] &&
    |s.KeptPoints(points)| >= minPoints && |s.KeptPoints(points)| >= 3
  }

  /** Simplified as a ring, a line ends up closed exactly when it was closed or passes these guards. */
  lemma RingClosedIff(s: Simplifier, points: seq<Point>, minPoints: nat)
    ensures IsClosed(SimplifiedLine(s, points, minPoints, true)) <==> IsClosed(points) || Replaces(s, points, minPoints)
  {
  }

  /** Simplifying a second time with the same tolerance changes nothing. */
  lemma SimplifyIdempotent(s: Simplifier, points: seq<Point>, minPoints: nat, closed: bool)
    ensures var once := SimplifiedLine(s, points, minPoints, closed);
      SimplifiedLine(s, once, minPoints, closed) == once
  {
    var once := SimplifiedLine(s, points, minPoints, closed);
    if once != points {
      var out := s.KeptPoints(Input(points, closed));
      s.KeptPointsIdempotent(Input(points, closed));
      if closed {
        assert once[..|once| - 1] == out;
        assert Input(once, closed) == out;
      }
    }
  }

  /** No point of the result is new. */
  lemma SimplifyAddsNoPoint(s: Simplifier, points: seq<Point>, minPoints: nat, closed: bool)
    ensures points != [] ==> SimplifiedLine(s, points, minPoints, closed) != []
    ensures forall p | p in SimplifiedLine(s, points, minPoints, closed) :: p in points
  {
    if points != [] {
      var input := Input(points, closed);
      s.KeptPointsAreKept(input);
      assert forall p | p in s.KeptPoints(input) :: p in input;
    }
  }
}
