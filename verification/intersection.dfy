/** Segment/segment and line/polygon intersection, from the parametric forms
    P + t·(Q − P) and R + u·(S − R). */
module Intersection {
  import opened Geometry
  import opened Scalar

  datatype Option<T> = None | Some(value: T)

  /** Below this magnitude the direction vectors count as parallel. */
  const Epsilon: real := 0.0000000001

  /** `vector_cross(v, w)`: the z component of the cross product. */
  function VectorCross(v: Point, w: Point): real
  {
    v.x * w.y - v.y * w.x
  }

  function Sub(a: Point, b: Point): Point
  {
    Point(a.x - b.x, a.y - b.y)
  }

  /** The point at parameter `t` on the segment from `a` to `b`. */
  function Lerp(a: Point, b: Point, t: real): Point
  {
    Point(a.x + t * (b.x - a.x), a.y + t * (b.y - a.y))
  }

  /** The orientation test is the cross product of the two edge vectors. */
  lemma CrossIsVectorCross(o: Point, a: Point, b: Point)
    ensures Cross(o, a, b) == VectorCross(Sub(a, o), Sub(b, o))
  {
  }

  function Denominator(P: Point, Q: Point, R: Point, S: Point): real
  {
    VectorCross(Sub(Q, P), Sub(S, R))
  }

  /** Parameter of the crossing along P–Q. */
  function ParamT(P: Point, Q: Point, R: Point, S: Point): real
    requires Denominator(P, Q, R, S) != 0.0
  {
    VectorCross(Sub(R, P), Sub(S, R)) / Denominator(P, Q, R, S)
  }

  /** Parameter of the crossing along R–S. */
  function ParamU(P: Point, Q: Point, R: Point, S: Point): real
    requires Denominator(P, Q, R, S) != 0.0
  {
    VectorCross(Sub(R, P), Sub(Q, P)) / Denominator(P, Q, R, S)
  }

  /** For 2D vectors, (a×c)·b − (a×b)·c = (b×c)·a. */
  lemma CrossIdentity(a: Point, b: Point, c: Point)
    ensures VectorCross(a, c) * b.x - VectorCross(a, b) * c.x == VectorCross(b, c) * a.x
    ensures VectorCross(a, c) * b.y - VectorCross(a, b) * c.y == VectorCross(b, c) * a.y
  {
  }

  /** Away from parallel, the two parametric points coincide. */
  lemma ParamsMeet(P: Point, Q: Point, R: Point, S: Point)
    requires Denominator(P, Q, R, S) != 0.0
    ensures Lerp(P, Q, ParamT(P, Q, R, S)) == Lerp(R, S, ParamU(P, Q, R, S))
  {
    var d1, d2, diff := Sub(Q, P), Sub(S, R), Sub(R, P);
    var den := Denominator(P, Q, R, S);
    var t, u := ParamT(P, Q, R, S), ParamU(P, Q, R, S);
    CrossIdentity(diff, d1, d2);
    assert t * den == VectorCross(diff, d2);
    assert u * den == VectorCross(diff, d1);
    assert (t * d1.x - u * d2.x) * den == diff.x * den;
    assert (t * d1.y - u * d2.y) * den == diff.y * den;
    assert t * d1.x - u * d2.x == diff.x;
    assert t * d1.y - u * d2.y == diff.y;
  }

  /** `segment_intersection`: no point when the segments are (nearly)
      parallel; otherwise the common point of the two supporting lines,
      provided it lies on both segments (both parameters in [0, 1]). */
  function SegmentIntersection(P: Point, Q: Point, R: Point, S: Point): (r: Option<Point>)
    ensures Abs(Denominator(P, Q, R, S)) < Epsilon ==> r.None?
    ensures r.Some? <==>
              Abs(Denominator(P, Q, R, S)) >= Epsilon &&
              0.0 <= ParamT(P, Q, R, S) <= 1.0 && 0.0 <= ParamU(P, Q, R, S) <= 1.0
    ensures r.Some? ==>
              r.value == Lerp(P, Q, ParamT(P, Q, R, S)) &&
              r.value == Lerp(R, S, ParamU(P, Q, R, S))
  {
    var d1, d2 := Sub(Q, P), Sub(S, R);
    var denom := VectorCross(d1, d2);
    if Abs(denom) < Epsilon then None
    else
      var diff := Sub(R, P);
      var t := VectorCross(diff, d2) / denom;
      var u := VectorCross(diff, d1) / denom;
      if 0.0 <= t <= 1.0 && 0.0 <= u <= 1.0 then
        ParamsMeet(P, Q, R, S);
        Some(Point(P.x + t * d1.x, P.y + t * d1.y))
      else None
  }

  /** Completeness: when the segments are not nearly parallel, any point
      they share is the one reported. */
  lemma SegmentIntersectionComplete(P: Point, Q: Point, R: Point, S: Point, t: real, u: real)
    requires Abs(Denominator(P, Q, R, S)) >= Epsilon
    requires 0.0 <= t <= 1.0 && 0.0 <= u <= 1.0
    requires Lerp(P, Q, t) == Lerp(R, S, u)
    ensures SegmentIntersection(P, Q, R, S) == Some(Lerp(P, Q, t))
  {
    var d1, d2, diff := Sub(Q, P), Sub(S, R), Sub(R, P);
    var den := Denominator(P, Q, R, S);
    // P + t·d1 = R + u·d2, so t·d1 − u·d2 = diff; cross with d2 and with d1.
    assert t * d1.x - u * d2.x == diff.x;
    assert t * d1.y - u * d2.y == diff.y;
    assert VectorCross(diff, d2) == t * den;
    assert VectorCross(diff, d1) == u * den;
    assert ParamT(P, Q, R, S) == t;
    assert ParamU(P, Q, R, S) == u;
  }

  /** The intersection with edge `i` of the polygon. */
  function EdgeHit(P: Point, Q: Point, poly: seq<Point>, i: int): Option<Point>
    requires 0 <= i < |poly|
  {
    SegmentIntersection(P, Q, poly[i], poly[(i + 1) % |poly|])
  }

  /** The outcome of `segment_intersection` against every edge, in edge
      order. */
  function EdgeHits(P: Point, Q: Point, poly: seq<Point>): (hs: seq<Option<Point>>)
    ensures |hs| == |poly|
    ensures forall i :: 0 <= i < |poly| ==> hs[i] == EdgeHit(P, Q, poly, i)
  {
    seq(|poly|, i requires 0 <= i < |poly| => EdgeHit(P, Q, poly, i))
  }

  /** The positions `i ..` of `hs` that hold a value, ascending. */
  function SomeIndices<T>(hs: seq<Option<T>>, i: nat): (idx: seq<nat>)
    requires i <= |hs|
    ensures |idx| <= |hs| - i
    ensures forall k :: 0 <= k < |idx| ==> i <= idx[k] < |hs| && hs[idx[k]].Some?
    ensures forall k, l :: 0 <= k < l < |idx| ==> idx[k] < idx[l]
    ensures forall j :: i <= j < |hs| && hs[j].Some? ==> j in idx
    decreases |hs| - i
  {
    if i == |hs| then []
    else if hs[i].Some? then [i] + SomeIndices(hs, i + 1)
    else SomeIndices(hs, i + 1)
  }

  /** The values held at positions `i ..` of `hs`, in order: the loop of
      `line_polygon_intersections`, which appends each edge's intersection
      unless it is `None`. */
  function SomeValues<T>(hs: seq<Option<T>>, i: nat): (r: seq<T>)
    requires i <= |hs|
    ensures |r| == |SomeIndices(hs, i)|
    ensures forall k :: 0 <= k < |r| ==> Some(r[k]) == hs[SomeIndices(hs, i)[k]]
    decreases |hs| - i
  {
    if i == |hs| then []
    else
      match hs[i]
      case Some(ip) => [ip] + SomeValues(hs, i + 1)
      case None => SomeValues(hs, i + 1)
  }

  /** The indices of the edges the segment meets, ascending. */
  function HitEdges(P: Point, Q: Point, poly: seq<Point>): seq<nat>
  {
    SomeIndices(EdgeHits(P, Q, poly), 0)
  }

  /** `line_polygon_intersections`: exactly the points where the segment
      P–Q meets the polygon's edges, one per edge met, in edge order. */
  function LinePolygonIntersections(P: Point, Q: Point, poly: seq<Point>): (r: seq<Point>)
    ensures |r| <= |poly|
    ensures |r| == |HitEdges(P, Q, poly)|
    ensures forall k :: 0 <= k < |r| ==>
              HitEdges(P, Q, poly)[k] < |poly| &&
              Some(r[k]) == EdgeHit(P, Q, poly, HitEdges(P, Q, poly)[k])
  {
    SomeValues(EdgeHits(P, Q, poly), 0)
  }

  /** Every reported point lies on the segment P–Q. */
  lemma IntersectionsOnLine(P: Point, Q: Point, poly: seq<Point>, k: int)
    requires 0 <= k < |LinePolygonIntersections(P, Q, poly)|
    ensures exists t :: 0.0 <= t <= 1.0 && LinePolygonIntersections(P, Q, poly)[k] == Lerp(P, Q, t)
  {
    var j := HitEdges(P, Q, poly)[k];
    var R, S := poly[j], poly[(j + 1) % |poly|];
    assert EdgeHit(P, Q, poly, j).Some?;
    var t := ParamT(P, Q, R, S);
    assert LinePolygonIntersections(P, Q, poly)[k] == Lerp(P, Q, t);
  }

  /** The two diagonals of a square [0,a]² cross at its centre, at the middle
      of both segments. */
  lemma DiagonalsMeetAtCentre(a: real)
    requires a >= 1.0
    ensures SegmentIntersection(Point(0.0, 0.0), Point(a, a), Point(0.0, a), Point(a, 0.0))
            == Some(Point(a / 2.0, a / 2.0))
  {
    var P, Q, R, S := Point(0.0, 0.0), Point(a, a), Point(0.0, a), Point(a, 0.0);
    assert Denominator(P, Q, R, S) == -2.0 * (a * a);
    assert a * a >= 1.0 by { MulNonNegative(a - 1.0, a); }
    SegmentIntersectionComplete(P, Q, R, S, 0.5, 0.5);
  }

  /** Evaluates `SegmentIntersection` from the values of its denominator and
      of the numerators of its two parameters. */
  lemma HitAt(P: Point, Q: Point, R: Point, S: Point, den: real, tn: real, un: real)
    requires Denominator(P, Q, R, S) == den && Abs(den) >= Epsilon
    requires VectorCross(Sub(R, P), Sub(S, R)) == tn
    requires VectorCross(Sub(R, P), Sub(Q, P)) == un
    ensures 0.0 <= tn / den <= 1.0 && 0.0 <= un / den <= 1.0 ==>
              SegmentIntersection(P, Q, R, S) == Some(Lerp(P, Q, tn / den))
    ensures !(0.0 <= tn / den <= 1.0 && 0.0 <= un / den <= 1.0) ==>
              SegmentIntersection(P, Q, R, S) == None
  {
  }

  /** The demonstration input: the segment (50,50)–(250,150) meets the
      rectangle (100,30), (300,30), (300,200), (100,200) once, at (100, 75),
      on its closing edge. The points are parameters pinned by the
      precondition so that the evaluation goes through `HitAt` step by step. */
  lemma DemoLineMeetsRectangleOnce(P: Point, Q: Point, poly: seq<Point>)
    requires P == Point(50.0, 50.0) && Q == Point(250.0, 150.0)
    requires poly == [Point(100.0, 30.0), Point(300.0, 30.0), Point(300.0, 200.0), Point(100.0, 200.0)]
    ensures LinePolygonIntersections(P, Q, poly) == [Point(100.0, 75.0)]
  {
    HitAt(P, Q, poly[0], poly[1], -20000.0, 4000.0, 9000.0);
    assert EdgeHit(P, Q, poly, 0) == None;
    HitAt(P, Q, poly[1], poly[2], 34000.0, 42500.0, 29000.0);
    assert EdgeHit(P, Q, poly, 1) == None;
    HitAt(P, Q, poly[2], poly[3], 20000.0, 30000.0, -5000.0);
    assert EdgeHit(P, Q, poly, 2) == None;
    assert (3 + 1) % 4 == 0;
    HitAt(P, Q, poly[3], poly[0], -34000.0, -8500.0, -25000.0);
    assert Lerp(P, Q, -8500.0 / -34000.0) == Point(100.0, 75.0);
    assert EdgeHit(P, Q, poly, 3) == Some(Point(100.0, 75.0));
    var hs := EdgeHits(P, Q, poly);
    assert hs[3] == Some(Point(100.0, 75.0)) && hs[2] == hs[1] == hs[0] == None;
    assert SomeValues(hs, 3) == [Point(100.0, 75.0)];
    assert SomeValues(hs, 2) == [Point(100.0, 75.0)];
    assert SomeValues(hs, 1) == [Point(100.0, 75.0)];
  }
}
