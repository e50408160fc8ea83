/** Polygon predicates of the kernel: the orientation test `cross`, the
    convexity test, even-odd ray casting, and the inward-normal choice.
    A polygon is a sequence of vertices; edge `i` runs from vertex `i` to
    vertex `(i + 1) % n`, so the last edge closes the polygon. */
module Geometry {
  import opened Scalar

  datatype Point = Point(x: real, y: real)

  /** `cross(o, a, b)`: twice the signed area of the triangle (o, a, b);
      positive for a counter-clockwise turn, zero when collinear. */
  function Cross(o: Point, a: Point, b: Point): real
  {
    (a.x - o.x) * (b.y - o.y) - (a.y - o.y) * (b.x - o.x)
  }

  /** Walking a triangle backwards flips the sign of its orientation. */
  lemma CrossReversed(a: Point, b: Point, c: Point)
    ensures Cross(c, b, a) == -Cross(a, b, c)
  {
  }

  // ---------------------------------------------------------------------
  // Convexity

  /** The orientation of the vertex triple starting at `i` (indices wrap). */
  function TurnAt(vs: seq<Point>, i: int): real
    requires 0 <= i < |vs|
  {
    Cross(vs[i], vs[(i + 1) % |vs|], vs[(i + 2) % |vs|])
  }

  /** Python's `all()` and `any()` on a list of booleans. */
  predicate All(bs: seq<bool>)
  {
    forall k :: 0 <= k < |bs| ==> bs[k]
  }

  predicate Any(bs: seq<bool>)
  {
    exists k :: 0 <= k < |bs| && bs[k]
  }

  /** The list `signs` built by `is_convex` from triple `i` on: one entry
      `cp > 0` per non-zero cross product, in order. */
  function Signs(vs: seq<Point>, i: int): (r: seq<bool>)
    requires 0 <= i <= |vs|
    ensures All(r) <==> forall j :: i <= j < |vs| ==> TurnAt(vs, j) >= 0.0
    ensures !Any(r) <==> forall j :: i <= j < |vs| ==> TurnAt(vs, j) <= 0.0
    decreases |vs| - i
  {
    if i == |vs| then []
    else
      var cp := TurnAt(vs, i);
      var rest := Signs(vs, i + 1);
      if cp != 0.0 then
        AllCons(cp > 0.0, rest);
        AnyCons(cp > 0.0, rest);
        [cp > 0.0] + rest
      else
        rest
  }

  lemma AllCons(b: bool, bs: seq<bool>)
    ensures All([b] + bs) <==> b && All(bs)
  {
    var c := [b] + bs;
    assert c[0] == b;
    assert forall k :: 0 <= k < |bs| ==> c[k + 1] == bs[k];
    if b && All(bs) {
      forall k | 0 <= k < |c|
        ensures c[k]
      {
        if k > 0 {
          assert c[k] == bs[k - 1];
        }
      }
    }
  }

  lemma AnyCons(b: bool, bs: seq<bool>)
    ensures Any([b] + bs) <==> b || Any(bs)
  {
    var c := [b] + bs;
    assert c[0] == b;
    assert forall k :: 0 <= k < |bs| ==> c[k + 1] == bs[k];
    if Any(c) && !b {
      var k :| 0 <= k < |c| && c[k];
      assert bs[k - 1];
    }
  }

  /** No turn of the polygon is clockwise. */
  predicate NoRightTurn(vs: seq<Point>)
  {
    forall i :: 0 <= i < |vs| ==> TurnAt(vs, i) >= 0.0
  }

  /** No turn of the polygon is counter-clockwise. */
  predicate NoLeftTurn(vs: seq<Point>)
  {
    forall i :: 0 <= i < |vs| ==> TurnAt(vs, i) <= 0.0
  }

  /** `is_convex`: at least three vertices, and the non-zero turns all have
      the same sign. */
  function IsConvex(vs: seq<Point>): (r: bool)
    ensures |vs| < 3 ==> !r
    ensures r <==> |vs| >= 3 && (NoRightTurn(vs) || NoLeftTurn(vs))
  {
    |vs| >= 3 && (All(Signs(vs, 0)) || !Any(Signs(vs, 0)))
  }

  function Reverse(vs: seq<Point>): (r: seq<Point>)
    ensures |r| == |vs|
    ensures forall k :: 0 <= k < |vs| ==> r[k] == vs[|vs| - 1 - k]
  {
    seq(|vs|, k requires 0 <= k < |vs| => vs[|vs| - 1 - k])
  }

  /** The triple of the reversed polygon starting at `j` is the triple of the
      original polygon starting at `Mirror(j, n)`, walked backwards. */
  function Mirror(j: int, n: int): (i: int)
    requires n >= 3 && 0 <= j < n
    ensures 0 <= i < n
  {
    if j <= n - 3 then n - 3 - j else if j == n - 2 then n - 1 else n - 2
  }

  lemma MirrorInvolution(j: int, n: int)
    requires n >= 3 && 0 <= j < n
    ensures Mirror(Mirror(j, n), n) == j
  {
  }

  lemma WrapIndex(k: int, n: int)
    requires n > 0 && 0 <= k < 2 * n
    ensures k % n == if k < n then k else k - n
  {
    if k >= n {
      assert k == n + (k - n);
      assert (k - n) % n == k - n;
    }
  }

  lemma TurnReversed(vs: seq<Point>, j: int)
    requires |vs| >= 3 && 0 <= j < |vs|
    ensures TurnAt(Reverse(vs), j) == -TurnAt(vs, Mirror(j, |vs|))
  {
    var n := |vs|;
    var w := Reverse(vs);
    var i := Mirror(j, n);
    WrapIndex(j + 1, n);
    WrapIndex(j + 2, n);
    WrapIndex(i + 1, n);
    WrapIndex(i + 2, n);
    assert w[j] == vs[(i + 2) % n];
    assert w[(j + 1) % n] == vs[(i + 1) % n];
    assert w[(j + 2) % n] == vs[i];
    CrossReversed(vs[i], vs[(i + 1) % n], vs[(i + 2) % n]);
  }

  /** Every turn of the reversed polygon is the negation of a turn of the
      original, and every turn of the original appears that way. */
  lemma TurnsReversed(vs: seq<Point>)
    requires |vs| >= 3
    ensures forall j :: 0 <= j < |vs| ==> TurnAt(Reverse(vs), j) == -TurnAt(vs, Mirror(j, |vs|))
    ensures forall i :: 0 <= i < |vs| ==> TurnAt(vs, i) == -TurnAt(Reverse(vs), Mirror(i, |vs|))
  {
    var n := |vs|;
    forall j | 0 <= j < n
      ensures TurnAt(Reverse(vs), j) == -TurnAt(vs, Mirror(j, n))
    {
      TurnReversed(vs, j);
    }
    forall i | 0 <= i < n
      ensures TurnAt(vs, i) == -TurnAt(Reverse(vs), Mirror(i, n))
    {
      MirrorInvolution(i, n);
      TurnReversed(vs, Mirror(i, n));
    }
  }

  /** Listing the vertices in the opposite order does not change the
      convexity verdict. */
  lemma IsConvexReverse(vs: seq<Point>)
    ensures IsConvex(Reverse(vs)) == IsConvex(vs)
  {
    var n, w := |vs|, Reverse(vs);
    if n >= 3 {
      TurnsReversed(vs);
      if NoRightTurn(w) {
        forall i | 0 <= i < n
          ensures TurnAt(vs, i) <= 0.0
        {
          assert TurnAt(w, Mirror(i, n)) >= 0.0;
        }
      }
      if NoLeftTurn(w) {
        forall i | 0 <= i < n
          ensures TurnAt(vs, i) >= 0.0
        {
          assert TurnAt(w, Mirror(i, n)) <= 0.0;
        }
      }
      if NoRightTurn(vs) {
        forall j | 0 <= j < n
          ensures TurnAt(w, j) <= 0.0
        {
          assert TurnAt(vs, Mirror(j, n)) >= 0.0;
        }
      }
      if NoLeftTurn(vs) {
        forall j | 0 <= j < n
          ensures TurnAt(w, j) >= 0.0
        {
          assert TurnAt(vs, Mirror(j, n)) <= 0.0;
        }
      }
    }
  }

  // ---------------------------------------------------------------------
  // Even-odd ray casting

  /** The edge from `a` to `b` has one end strictly above the height of `p`
      and the other not. */
  predicate Straddles(p: Point, a: Point, b: Point)
  {
    (a.y > p.y) != (b.y > p.y)
  }

  /** The x coordinate where the edge from `a` to `b` meets the horizontal
      line through `p`; the straddle test guarantees a non-zero divisor. */
  function CrossingX(p: Point, a: Point, b: Point): real
    requires Straddles(p, a, b)
  {
    (b.x - a.x) * (p.y - a.y) / (b.y - a.y) + a.x
  }

  /** The edge is counted by the rightward ray from `p`. The division only
      happens once the straddle test has forced `a.y != b.y`. */
  predicate RayCrosses(p: Point, a: Point, b: Point)
  {
    Straddles(p, a, b) && p.x < CrossingX(p, a, b)
  }

  function EdgeEnd(vs: seq<Point>, i: int): Point
    requires 0 <= i < |vs|
  {
    vs[(i + 1) % |vs|]
  }

  /** Number of edges `i .. n-1` counted by the ray: the reference count. */
  function CrossingCount(p: Point, vs: seq<Point>, i: int): nat
    requires 0 <= i <= |vs|
    decreases |vs| - i
  {
    if i == |vs| then 0
    else (if RayCrosses(p, vs[i], EdgeEnd(vs, i)) then 1 else 0) + CrossingCount(p, vs, i + 1)
  }

  /** The loop of `point_in_polygon` from edge `i` on, with the current
      value of the `inside` flag. */
  function ToggleFrom(p: Point, vs: seq<Point>, i: int, inside: bool): bool
    requires 0 <= i <= |vs|
    decreases |vs| - i
  {
    if i == |vs| then inside
    else
      ToggleFrom(p, vs, i + 1,
                 if RayCrosses(p, vs[i], EdgeEnd(vs, i)) then !inside else inside)
  }

  /** Toggling the flag once per counted edge leaves it flipped exactly when
      the count is odd. */
  lemma {:induction false} ToggleParity(p: Point, vs: seq<Point>, i: int, inside: bool)
    requires 0 <= i <= |vs|
    ensures ToggleFrom(p, vs, i, inside) <==> (inside != (CrossingCount(p, vs, i) % 2 == 1))
    decreases |vs| - i
  {
    if i < |vs| {
      var hit := RayCrosses(p, vs[i], EdgeEnd(vs, i));
      ToggleParity(p, vs, i + 1, if hit then !inside else inside);
      ParityStep(inside, hit, CrossingCount(p, vs, i + 1));
    }
  }

  /** Toggling on a crossing and then adding the parity of the rest is
      adding the parity of all of them. */
  lemma ParityStep(inside: bool, hit: bool, n: nat)
    ensures ((if hit then !inside else inside) != (n % 2 == 1))
            == (inside != (((if hit then 1 else 0) + n) % 2 == 1))
  {
  }

  /** `point_in_polygon`: true exactly when an odd number of edges straddle
      the height of `p` and meet that height strictly to the right of `p`. */
  function PointInPolygon(p: Point, vs: seq<Point>): (inside: bool)
    ensures inside <==> CrossingCount(p, vs, 0) % 2 == 1
  {
    ToggleParity(p, vs, 0, false);
    ToggleFrom(p, vs, 0, false)
  }

  // ---------------------------------------------------------------------
  // Bounding box and where ray casting can answer true

  function MinX(vs: seq<Point>): (m: real)
    requires vs != []
    ensures forall i :: 0 <= i < |vs| ==> m <= vs[i].x
    ensures exists i :: 0 <= i < |vs| && m == vs[i].x
  {
    if |vs| == 1 then vs[0].x
    else var m := MinX(vs[1..]); if vs[0].x <= m then vs[0].x else m
  }

  function MaxX(vs: seq<Point>): (m: real)
    requires vs != []
    ensures forall i :: 0 <= i < |vs| ==> vs[i].x <= m
    ensures exists i :: 0 <= i < |vs| && m == vs[i].x
  {
    if |vs| == 1 then vs[0].x
    else var m := MaxX(vs[1..]); if vs[0].x >= m then vs[0].x else m
  }

  function MinY(vs: seq<Point>): (m: real)
    requires vs != []
    ensures forall i :: 0 <= i < |vs| ==> m <= vs[i].y
    ensures exists i :: 0 <= i < |vs| && m == vs[i].y
  {
    if |vs| == 1 then vs[0].y
    else var m := MinY(vs[1..]); if vs[0].y <= m then vs[0].y else m
  }

  function MaxY(vs: seq<Point>): (m: real)
    requires vs != []
    ensures forall i :: 0 <= i < |vs| ==> vs[i].y <= m
    ensures exists i :: 0 <= i < |vs| && m == vs[i].y
  {
    if |vs| == 1 then vs[0].y
    else var m := MaxY(vs[1..]); if vs[0].y >= m then vs[0].y else m
  }

  /** Where a straddling edge meets the height of `p` lies between the x
      coordinates of its ends. */
  lemma CrossingXBetween(p: Point, a: Point, b: Point)
    requires Straddles(p, a, b)
    ensures a.x <= b.x ==> a.x <= CrossingX(p, a, b) <= b.x
    ensures b.x <= a.x ==> b.x <= CrossingX(p, a, b) <= a.x
  {
    var num, den, d := p.y - a.y, b.y - a.y, b.x - a.x;
    FractionInUnit(num, den);
    DivScale(d, num, den);
    ScaleBetween(num / den, d);
  }

  /** Number of edges `i .. n-1` that straddle the height of `p`. */
  function StraddleCount(p: Point, vs: seq<Point>, i: int): nat
    requires 0 <= i <= |vs|
    decreases |vs| - i
  {
    if i == |vs| then 0
    else (if Straddles(p, vs[i], EdgeEnd(vs, i)) then 1 else 0) + StraddleCount(p, vs, i + 1)
  }

  /** Along the closed chain from vertex `i` back to vertex 0 the side of the
      horizontal line changes an odd number of times exactly when vertex `i`
      and vertex 0 lie on different sides. */
  lemma {:induction false} StraddleParity(p: Point, vs: seq<Point>, i: int)
    requires 0 <= i < |vs|
    ensures (StraddleCount(p, vs, i) % 2 == 1) <==> ((vs[i].y > p.y) != (vs[0].y > p.y))
    decreases |vs| - i
  {
    var s := if Straddles(p, vs[i], EdgeEnd(vs, i)) then 1 else 0;
    assert StraddleCount(p, vs, i) == s + StraddleCount(p, vs, i + 1);
    if i == |vs| - 1 {
      WrapIndex(i + 1, |vs|);
      assert EdgeEnd(vs, i) == vs[0];
    } else {
      WrapIndex(i + 1, |vs|);
      assert EdgeEnd(vs, i) == vs[i + 1];
      StraddleParity(p, vs, i + 1);
    }
  }

  /** Left of every vertex, the ray counts every straddling edge. */
  lemma {:induction false} CountLeftOfBox(p: Point, vs: seq<Point>, i: int)
    requires vs != [] && 0 <= i <= |vs|
    requires p.x < MinX(vs)
    ensures CrossingCount(p, vs, i) == StraddleCount(p, vs, i)
    decreases |vs| - i
  {
    if i < |vs| {
      var a, b := vs[i], EdgeEnd(vs, i);
      if Straddles(p, a, b) {
        CrossingXBetween(p, a, b);
      }
      CountLeftOfBox(p, vs, i + 1);
    }
  }

  /** A positive count is witnessed by a counted edge. */
  lemma {:induction false} CountedEdgeExists(p: Point, vs: seq<Point>, i: int)
    requires 0 <= i <= |vs|
    requires CrossingCount(p, vs, i) > 0
    ensures exists j :: i <= j < |vs| && RayCrosses(p, vs[j], EdgeEnd(vs, j))
    decreases |vs| - i
  {
    if !RayCrosses(p, vs[i], EdgeEnd(vs, i)) {
      CountedEdgeExists(p, vs, i + 1);
    }
  }

  /** Ray casting only answers true inside the bounding box of the vertices,
      half-open on the right and at the top. */
  lemma PointInPolygonInBox(p: Point, vs: seq<Point>)
    requires PointInPolygon(p, vs)
    ensures vs != []
    ensures MinX(vs) <= p.x < MaxX(vs)
    ensures MinY(vs) <= p.y < MaxY(vs)
  {
    CountedEdgeExists(p, vs, 0);
    var j :| 0 <= j < |vs| && RayCrosses(p, vs[j], EdgeEnd(vs, j));
    CrossedEdgeInBox(p, vs, j);
    if p.x < MinX(vs) {
      LeftOfBoxOutside(p, vs);
    }
  }

  /** A point whose rightward ray crosses an edge lies left of the box's
      right side and between its bottom and top. */
  lemma CrossedEdgeInBox(p: Point, vs: seq<Point>, j: int)
    requires 0 <= j < |vs| && RayCrosses(p, vs[j], EdgeEnd(vs, j))
    ensures p.x < MaxX(vs)
    ensures MinY(vs) <= p.y < MaxY(vs)
  {
    var a, b := vs[j], EdgeEnd(vs, j);
    CrossingXBetween(p, a, b);
    assert a == vs[j] && b == vs[(j + 1) % |vs|];
  }

  /** A point left of the box is outside: its ray crosses every straddling
      edge, and those come in pairs. */
  lemma LeftOfBoxOutside(p: Point, vs: seq<Point>)
    requires vs != [] && p.x < MinX(vs)
    ensures !PointInPolygon(p, vs)
  {
    CountLeftOfBox(p, vs, 0);
    StraddleParity(p, vs, 0);
  }

  // ---------------------------------------------------------------------
  // Inward normals

  function Dot(u: Point, v: Point): real
  {
    u.x * v.x + u.y * v.y
  }

  /** Direction vector of edge `i`. */
  function EdgeVector(vs: seq<Point>, i: int): Point
    requires 0 <= i < |vs|
  {
    Point(EdgeEnd(vs, i).x - vs[i].x, EdgeEnd(vs, i).y - vs[i].y)
  }

  /** `(-dy, dx)`, the first candidate normal of edge `i`. */
  function FirstCandidate(vs: seq<Point>, i: int): Point
    requires 0 <= i < |vs|
  {
    Point(-EdgeVector(vs, i).y, EdgeVector(vs, i).x)
  }

  /** The midpoint of edge `i` moved a tenth of the first candidate. */
  function Probe(vs: seq<Point>, i: int): Point
    requires 0 <= i < |vs|
  {
    var mid := Point((vs[i].x + EdgeEnd(vs, i).x) / 2.0, (vs[i].y + EdgeEnd(vs, i).y) / 2.0);
    Point(mid.x + FirstCandidate(vs, i).x * 0.1, mid.y + FirstCandidate(vs, i).y * 0.1)
  }

  /** `internal_normals`: one vector per edge, perpendicular to it and as
      long as it; the first candidate `(-dy, dx)` when its probe lies inside
      the polygon and its opposite `(dy, -dx)` otherwise. */
  function InternalNormals(vs: seq<Point>): (r: seq<Point>)
    ensures |r| == |vs|
    ensures forall i :: 0 <= i < |vs| ==>
              Dot(r[i], EdgeVector(vs, i)) == 0.0 &&
              Dot(r[i], r[i]) == Dot(EdgeVector(vs, i), EdgeVector(vs, i))
    ensures forall i :: 0 <= i < |vs| ==>
              r[i] == (if PointInPolygon(Probe(vs, i), vs)
                       then FirstCandidate(vs, i)
                       else Point(-FirstCandidate(vs, i).x, -FirstCandidate(vs, i).y))
  {
    seq(|vs|, i requires 0 <= i < |vs| =>
      var c1 := FirstCandidate(vs, i);
      if PointInPolygon(Probe(vs, i), vs) then c1 else Point(-c1.x, -c1.y))
  }
}
