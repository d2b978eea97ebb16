/** The geometric predicates of port.go: point equality, ring closure, the
    winding test, segment intersection and even-odd point containment. */
module Rings {
  import opened Seqs

  /** One coordinate tuple [x, y, ...]. Every predicate below reads x and y,
      so a point always carries at least two numbers. */
  type Point = p: seq<real> | |p| >= 2 witness [0.0, 0.0]

  /** A ring as ArcGIS stores it: an ordered list of points, closed or not. */
  type Ring = seq<Point>

  // ---------------------------------------------------------------------------
  // pointsEqual and closeRing

  /** The relation pointsEqual tests: the first |a| coordinates agree exactly. */
  predicate Coincide(a: Point, b: Point)
    requires |a| <= |b|
  {
    forall i :: 0 <= i < |a| ==> a[i] == b[i]
  }

  /** pointsEqual: a coordinate-by-coordinate scan over the length of a. */
  method PointsEqual(a: Point, b: Point) returns (eq: bool)
    requires |a| <= |b|
    ensures eq <==> Coincide(a, b)
  {
    var i := 0;
    while i < |a|
      invariant 0 <= i <= |a|
      invariant forall k :: 0 <= k < i ==> a[k] == b[k]
    {
      if a[i] != b[i] {
        return false;
      }
      i := i + 1;
    }
    return true;
  }

  /** What closeRing needs of its input: a first point, and a last point at
      least as long as the first (pointsEqual indexes it over len(first)). */
  predicate Closable(r: Ring)
  {
    |r| > 0 && |r[0]| <= |r[|r| - 1]|
  }

  /** closeRing: appends a copy of the first point unless the last point
      already equals it. */
  function CloseRing(r: Ring): (c: Ring)
    requires Closable(r)
    ensures r <= c && |c| <= |r| + 1
    ensures |c| == |r| <==> Coincide(r[0], r[|r| - 1])
    ensures |c| == |r| + 1 ==> c[|r|] == r[0]
    ensures c[0] == r[0] && Closable(c) && Coincide(c[0], c[|c| - 1])
  {
    if !Coincide(r[0], r[|r| - 1]) then r + [r[0]] else r
  }

  lemma CloseRingIdempotent(r: Ring)
    requires Closable(r)
    ensures CloseRing(CloseRing(r)) == CloseRing(r)
  {
  }

  // ---------------------------------------------------------------------------
  // ringIsClockwise

  /** The contribution (x2 - x1) * (y2 + y1) of the edge p -> q. */
  function EdgeTerm(p: Point, q: Point): real
  {
    (q[0] - p[0]) * (q[1] + p[1])
  }

  /** The shoelace-style sum over consecutive vertices, accumulated front to back. */
  ghost function WindingSum(r: Ring): real
  {
    if |r| < 2 then 0.0 else WindingSum(r[..|r| - 1]) + EdgeTerm(r[|r| - 2], r[|r| - 1])
  }

  /** A zero sum counts as clockwise. */
  ghost predicate Clockwise(r: Ring)
  {
    WindingSum(r) >= 0.0
  }

  /** ringIsClockwise. */
  method RingIsClockwise(r: Ring) returns (cw: bool)
    requires |r| > 0
    ensures cw <==> Clockwise(r)
  {
    var total := 0.0;
    var pt1 := r[0];
    var i := 0;
    while i < |r| - 1
      invariant 0 <= i <= |r| - 1
      invariant pt1 == r[i]
      invariant total == WindingSum(r[..i + 1])
    {
      var pt2 := r[i + 1];
      assert r[..i + 2][..i + 1] == r[..i + 1];
      total := total + (pt2[0] - pt1[0]) * (pt2[1] + pt1[1]);
      pt1 := pt2;
      i := i + 1;
    }
    assert r[..|r|] == r;
    return total >= 0.0;
  }

  lemma {:induction false} WindingSumCons(p: Point, r: Ring)
    requires |r| > 0
    ensures WindingSum([p] + r) == EdgeTerm(p, r[0]) + WindingSum(r)
  {
    if |r| == 1 {
      assert ([p] + r)[..1] == [p];
    } else {
      WindingSumCons(p, r[..|r| - 1]);
      assert ([p] + r)[..|r|] == [p] + r[..|r| - 1];
    }
  }

  /** Reversing a ring negates its winding sum. */
  lemma {:induction false} WindingSumReverse(r: Ring)
    ensures WindingSum(Reverse(r)) == -WindingSum(r)
  {
    if |r| >= 2 {
      var init := r[..|r| - 1];
      WindingSumReverse(init);
      assert Reverse(r) == [r[|r| - 1]] + Reverse(init);
      WindingSumCons(r[|r| - 1], Reverse(init));
      assert Reverse(init)[0] == r[|r| - 2];
      assert EdgeTerm(r[|r| - 1], r[|r| - 2]) == -EdgeTerm(r[|r| - 2], r[|r| - 1]);
    }
  }

  /** The reversed copy tests clockwise exactly when the ring's own sum is at
      most zero; reversal flips the verdict unless the sum is zero. */
  lemma ReversalFlipsWinding(r: Ring)
    ensures Clockwise(Reverse(r)) <==> WindingSum(r) <= 0.0
    ensures WindingSum(r) != 0.0 ==> (Clockwise(Reverse(r)) <==> !Clockwise(r))
  {
    WindingSumReverse(r);
  }

  /** The in-place swap loop that reverses a fresh copy of a ring
      (ring3 and reverseHole in convertRingsToGeoJSON). */
  method ReversedCopy(r: Ring) returns (rev: Ring)
    ensures rev == Reverse(r)
  {
    var a := new Point[|r|](k requires 0 <= k < |r| => r[k]);
    assert a[..] == r;
    ReverseInPlace(a);
    rev := a[..];
  }

  // ---------------------------------------------------------------------------
  // vertexIntersectsVertex and arrayIntersectsArray

  /** uB: the cross product of the two segment directions. */
  function Denominator(a1: Point, a2: Point, b1: Point, b2: Point): real
  {
    (b2[1] - b1[1]) * (a2[0] - a1[0]) - (b2[0] - b1[0]) * (a2[1] - a1[1])
  }

  /** uaT, the numerator of the parameter along a. */
  function NumeratorA(a1: Point, a2: Point, b1: Point, b2: Point): real
  {
    (b2[0] - b1[0]) * (a1[1] - b1[1]) - (b2[1] - b1[1]) * (a1[0] - b1[0])
  }

  /** ubT, the numerator of the parameter along b. */
  function NumeratorB(a1: Point, a2: Point, b1: Point, b2: Point): real
  {
    (a2[0] - a1[0]) * (a1[1] - b1[1]) - (a2[1] - a1[1]) * (a1[0] - b1[0])
  }

  /** vertexIntersectsVertex: parallel or collinear segments never intersect. */
  function VertexIntersectsVertex(a1: Point, a2: Point, b1: Point, b2: Point): (r: bool)
    ensures Denominator(a1, a2, b1, b2) == 0.0 ==> !r
  {
    var uB := Denominator(a1, a2, b1, b2);
    if uB != 0.0 then
      var ua := NumeratorA(a1, a2, b1, b2) / uB;
      var ub := NumeratorB(a1, a2, b1, b2) / uB;
      0.0 <= ua <= 1.0 && 0.0 <= ub <= 1.0
    else
      false
  }

  /** The point at parameter t along a1 -> a2 is the point at parameter u along b1 -> b2. */
  ghost predicate MeetAt(a1: Point, a2: Point, b1: Point, b2: Point, t: real, u: real)
  {
    && a1[0] + t * (a2[0] - a1[0]) == b1[0] + u * (b2[0] - b1[0])
    && a1[1] + t * (a2[1] - a1[1]) == b1[1] + u * (b2[1] - b1[1])
  }

  /** Eliminating one unknown from the two coordinate equations
      dx + t*ux - u*vx = 0 and dy + t*uy - u*vy = 0 (polynomial identities). */
  lemma Eliminate(ux: real, uy: real, vx: real, vy: real, dx: real, dy: real, t: real, u: real)
    ensures vy * (dx + t * ux - u * vx) - vx * (dy + t * uy - u * vy) == t * (vy * ux - vx * uy) - (vx * dy - vy * dx)
    ensures uy * (dx + t * ux - u * vx) - ux * (dy + t * uy - u * vy) == u * (vy * ux - vx * uy) - (ux * dy - uy * dx)
  {
  }

  /** Substituting Cramer's numerators back: d*dx + na*ux - nb*vx and
      d*dy + na*uy - nb*vy both vanish. */
  lemma Substitute(ux: real, uy: real, vx: real, vy: real, dx: real, dy: real)
    ensures (vy * ux - vx * uy) * dx + (vx * dy - vy * dx) * ux - (ux * dy - uy * dx) * vx == 0.0
    ensures (vy * ux - vx * uy) * dy + (vx * dy - vy * dx) * uy - (ux * dy - uy * dx) * vy == 0.0
  {
  }

  /** Cramer's rule for the 2x2 system of a segment meeting another. */
  lemma Cramer(ux: real, uy: real, vx: real, vy: real, dx: real, dy: real, t: real, u: real)
    requires vy * ux - vx * uy != 0.0
    ensures (dx + t * ux - u * vx == 0.0 && dy + t * uy - u * vy == 0.0) <==>
      (t == (vx * dy - vy * dx) / (vy * ux - vx * uy) && u == (ux * dy - uy * dx) / (vy * ux - vx * uy))
  {
    var d, na, nb := vy * ux - vx * uy, vx * dy - vy * dx, ux * dy - uy * dx;
    var ex, ey := dx + t * ux - u * vx, dy + t * uy - u * vy;
    Eliminate(ux, uy, vx, vy, dx, dy, t, u);
    if ex == 0.0 && ey == 0.0 {
      assert t * d == na && u * d == nb;
    }
    if t == na / d && u == nb / d {
      assert t * d == na && u * d == nb;
      Substitute(ux, uy, vx, vy, dx, dy);
      assert d * ex == d * dx + (t * d) * ux - (u * d) * vx;
      assert d * ey == d * dy + (t * d) * uy - (u * d) * vy;
      assert d * ex == 0.0 && d * ey == 0.0;
    }
  }

  /** When uB is not zero, the parameters ua = uaT / uB and ub = ubT / uB
      are the only solution of the two coordinate equations (Cramer's rule). */
  lemma CramerSolution(a1: Point, a2: Point, b1: Point, b2: Point, t: real, u: real)
    requires Denominator(a1, a2, b1, b2) != 0.0
    ensures MeetAt(a1, a2, b1, b2, t, u) <==>
      (t == NumeratorA(a1, a2, b1, b2) / Denominator(a1, a2, b1, b2) &&
       u == NumeratorB(a1, a2, b1, b2) / Denominator(a1, a2, b1, b2))
  {
    var ux, uy := a2[0] - a1[0], a2[1] - a1[1];
    var vx, vy := b2[0] - b1[0], b2[1] - b1[1];
    var dx, dy := a1[0] - b1[0], a1[1] - b1[1];
    assert Denominator(a1, a2, b1, b2) == vy * ux - vx * uy;
    assert NumeratorA(a1, a2, b1, b2) == vx * dy - vy * dx;
    assert NumeratorB(a1, a2, b1, b2) == ux * dy - uy * dx;
    assert MeetAt(a1, a2, b1, b2, t, u) <==> dx + t * ux - u * vx == 0.0 && dy + t * uy - u * vy == 0.0;
    Cramer(ux, uy, vx, vy, dx, dy, t, u);
  }

  /** The segments are reported as intersecting exactly when they are not
      parallel and share a point that lies on both of them. */
  lemma SegmentsMeet(a1: Point, a2: Point, b1: Point, b2: Point)
    ensures VertexIntersectsVertex(a1, a2, b1, b2) <==>
      (Denominator(a1, a2, b1, b2) != 0.0 &&
       exists t, u :: 0.0 <= t <= 1.0 && 0.0 <= u <= 1.0 && MeetAt(a1, a2, b1, b2, t, u))
  {
    var d := Denominator(a1, a2, b1, b2);
    if d != 0.0 {
      var t, u := NumeratorA(a1, a2, b1, b2) / d, NumeratorB(a1, a2, b1, b2) / d;
      CramerSolution(a1, a2, b1, b2, t, u);
      if exists t', u' :: 0.0 <= t' <= 1.0 && 0.0 <= u' <= 1.0 && MeetAt(a1, a2, b1, b2, t', u') {
        var t', u' :| 0.0 <= t' <= 1.0 && 0.0 <= u' <= 1.0 && MeetAt(a1, a2, b1, b2, t', u');
        CramerSolution(a1, a2, b1, b2, t', u');
      }
    }
  }

  /** Swapping the two segments does not change the verdict. */
  lemma VertexIntersectionSymmetric(a1: Point, a2: Point, b1: Point, b2: Point)
    ensures VertexIntersectsVertex(a1, a2, b1, b2) == VertexIntersectsVertex(b1, b2, a1, a2)
  {
    var d := Denominator(a1, a2, b1, b2);
    assert Denominator(b1, b2, a1, a2) == -d;
    assert NumeratorA(b1, b2, a1, a2) == -NumeratorB(a1, a2, b1, b2);
    assert NumeratorB(b1, b2, a1, a2) == -NumeratorA(a1, a2, b1, b2);
    if d != 0.0 {
      assert NumeratorA(b1, b2, a1, a2) / -d == NumeratorB(a1, a2, b1, b2) / d;
      assert NumeratorB(b1, b2, a1, a2) / -d == NumeratorA(a1, a2, b1, b2) / d;
    }
  }

  /** Some edge between consecutive vertices of a crosses some edge between
      consecutive vertices of b; no closing edge is added. */
  ghost predicate EdgesCross(a: Ring, b: Ring)
  {
    exists i: nat, j: nat :: i < |a| - 1 && j < |b| - 1 && EdgePairCrosses(a, b, i, j)
  }

  /** The segment a[i] -> a[i + 1] crosses the segment b[j] -> b[j + 1]. */
  predicate EdgePairCrosses(a: Ring, b: Ring, i: nat, j: nat)
    requires i < |a| - 1 && j < |b| - 1
  {
    VertexIntersectsVertex(a[i], a[i + 1], b[j], b[j + 1])
  }

  /** arrayIntersectsArray. */
  method ArrayIntersectsArray(a: Ring, b: Ring) returns (r: bool)
    ensures r <==> EdgesCross(a, b)
    ensures |a| < 2 || |b| < 2 ==> !r
  {
    var i := 0;
    while i < |a| - 1
      invariant 0 <= i && (i <= |a| - 1 || i == 0)
      invariant forall i', j :: 0 <= i' < i && 0 <= j < |b| - 1 ==> !EdgePairCrosses(a, b, i', j)
    {
      var j := 0;
      while j < |b| - 1
        invariant 0 <= j && (j <= |b| - 1 || j == 0)
        invariant forall j' :: 0 <= j' < j ==> !EdgePairCrosses(a, b, i, j')
      {
        if VertexIntersectsVertex(a[i], a[i + 1], b[j], b[j + 1]) {
          assert EdgePairCrosses(a, b, i, j);
          return true;
        }
        j := j + 1;
      }
      i := i + 1;
    }
    return false;
  }

  /** A crossing of a with b is a crossing of b with a. */
  lemma EdgesCrossFlip(a: Ring, b: Ring)
    requires EdgesCross(a, b)
    ensures EdgesCross(b, a)
  {
    var i: nat, j: nat :| i < |a| - 1 && j < |b| - 1 && EdgePairCrosses(a, b, i, j);
    VertexIntersectionSymmetric(a[i], a[i + 1], b[j], b[j + 1]);
    assert EdgePairCrosses(b, a, j, i);
  }

  /** The intersection test between two rings is symmetric. */
  lemma EdgesCrossSymmetric(a: Ring, b: Ring)
    ensures EdgesCross(a, b) <==> EdgesCross(b, a)
  {
    if EdgesCross(a, b) {
      EdgesCrossFlip(a, b);
    }
    if EdgesCross(b, a) {
      EdgesCrossFlip(b, a);
    }
  }

  // ---------------------------------------------------------------------------
  // coordinatesContainPoint and coordinatesContainCoordinates

  /** The ray from pt towards +x crosses the edge between ci and cj. The
      y-range test comes first, so the division never meets a zero. */
  predicate Crosses(ci: Point, cj: Point, pt: Point)
  {
    && ((ci[1] <= pt[1] && pt[1] < cj[1]) || (cj[1] <= pt[1] && pt[1] < ci[1]))
    && pt[0] < ((cj[0] - ci[0]) * (pt[1] - ci[1])) / (cj[1] - ci[1]) + ci[0]
  }

  /** Edge i of a ring joins vertex i to its predecessor; edge 0 joins the
      first vertex to the last, so the closing edge is always included. */
  predicate EdgeCrosses(r: Ring, i: nat, pt: Point)
    requires i < |r|
  {
    Crosses(r[i], r[if i == 0 then |r| - 1 else i - 1], pt)
  }

  /** The number of edges among the first n that the ray crosses. */
  ghost function CrossingCount(r: Ring, pt: Point, n: nat): nat
    requires n <= |r|
  {
    if n == 0 then 0
    else CrossingCount(r, pt, n - 1) + (if EdgeCrosses(r, n - 1, pt) then 1 else 0)
  }

  /** Even-odd rule: inside when the ray crosses an odd number of edges. */
  ghost predicate Inside(r: Ring, pt: Point)
  {
    CrossingCount(r, pt, |r|) % 2 == 1
  }

  /** coordinatesContainPoint. */
  method CoordinatesContainPoint(coordinates: Ring, pt: Point) returns (contains: bool)
    ensures contains <==> Inside(coordinates, pt)
    ensures |coordinates| == 0 ==> !contains
  {
    contains := false;
    var l := |coordinates|;
    var j := l - 1;
    var i := 0;
    while i < l
      invariant 0 <= i <= l
      invariant j == if i == 0 then l - 1 else i - 1
      invariant contains <==> CrossingCount(coordinates, pt, i) % 2 == 1
    {
      if Crosses(coordinates[i], coordinates[j], pt) {
        contains := !contains;
      }
      j := i;
      i := i + 1;
    }
  }

  lemma {:induction false} NoCrossingOutsideSpan(r: Ring, pt: Point, n: nat)
    requires n <= |r|
    requires (forall k :: 0 <= k < |r| ==> pt[1] < r[k][1]) || (forall k :: 0 <= k < |r| ==> r[k][1] <= pt[1])
    ensures CrossingCount(r, pt, n) == 0
  {
    if n > 0 {
      NoCrossingOutsideSpan(r, pt, n - 1);
      var i := n - 1;
      var j := if i == 0 then |r| - 1 else i - 1;
      assert !EdgeCrosses(r, i, pt) by {
        assert (pt[1] < r[i][1] && pt[1] < r[j][1]) || (r[i][1] <= pt[1] && r[j][1] <= pt[1]);
      }
    }
  }

  /** A point strictly below every vertex, or at or above every vertex, is never inside. */
  lemma OutsideVerticalSpan(r: Ring, pt: Point)
    requires (forall k :: 0 <= k < |r| ==> pt[1] < r[k][1]) || (forall k :: 0 <= k < |r| ==> r[k][1] <= pt[1])
    ensures !Inside(r, pt)
  {
    NoCrossingOutsideSpan(r, pt, |r|);
  }

  /** coordinatesContainCoordinates' rule: no edge crossing, and the first
      point of inner inside outer. */
  ghost predicate Encloses(outer: Ring, inner: Ring)
    requires |inner| > 0
  {
    !EdgesCross(outer, inner) && Inside(outer, inner[0])
  }

  /** coordinatesContainCoordinates. */
  method CoordinatesContainCoordinates(outer: Ring, inner: Ring) returns (r: bool)
    requires |inner| > 0
    ensures r <==> Encloses(outer, inner)
    ensures r ==> !EdgesCross(inner, outer)
  {
    var intersects := ArrayIntersectsArray(outer, inner);
    var contains := CoordinatesContainPoint(outer, inner[0]);
    EdgesCrossSymmetric(outer, inner);
    r := !intersects && contains;
  }

  /** A ring of fewer than two points encloses nothing: it has no edge the
      ray can cross. */
  lemma DegenerateOuterEnclosesNothing(outer: Ring, inner: Ring)
    requires |inner| > 0 && |outer| < 2
    ensures !Encloses(outer, inner)
  {
    if |outer| == 1 {
      assert !EdgeCrosses(outer, 0, inner[0]);
      assert CrossingCount(outer, inner[0], 1) == 0;
    }
  }
}
