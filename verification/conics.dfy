/** The second-order rasterisers: the midpoint circle, drawn in one octant and
    mirrored eight ways, and the two-region midpoint ellipse, mirrored four
    ways. Centres are canvas pixels; the circle radius and the ellipse
    semi-axes are the integers the source derives from the second click. */
module Conics {
  import opened Scalar
  import opened Lines
  import opened Sorting

  ghost predicate NoDup<T>(s: seq<T>)
  {
    forall i, j :: 0 <= i < j < |s| ==> s[i] != s[j]
  }

  /** Pixels are sorted with `key=lambda p: (p[0], p[1])`. */
  function PixelKey(p: Pixel): Key
  {
    Key(p.x as real, p.y as real)
  }

  // ---------------------------------------------------------------------
  // Circle

  /** `add_circle_points`: the octant offset `(x, y)` and its seven mirror
      images about the centre, in the order the source lists them. */
  function EightWay(cx: int, cy: int, x: int, y: int): seq<Pixel>
  {
    [Pixel(cx + x, cy + y, 1.0), Pixel(cx - x, cy + y, 1.0),
     Pixel(cx + x, cy - y, 1.0), Pixel(cx - x, cy - y, 1.0),
     Pixel(cx + y, cy + x, 1.0), Pixel(cx - y, cy + x, 1.0),
     Pixel(cx + y, cy - x, 1.0), Pixel(cx - y, cy - x, 1.0)]
  }

  /** The eight images of `p` under the sign changes and the swap of its
      offsets from the centre. */
  function Mirrors(cx: int, cy: int, p: Pixel): seq<Pixel>
  {
    EightWay(cx, cy, p.x - cx, p.y - cy)
  }

  /** The set of pixels is closed under all eight reflections. */
  predicate Symmetric8(cx: int, cy: int, s: seq<Pixel>)
  {
    forall p, q :: p in s && q in Mirrors(cx, cy, p) ==> q in s
  }

  /** Mirroring a mirror image gives back one of the original images. */
  lemma EightWayClosed(cx: int, cy: int, x: int, y: int)
    ensures forall p, q :: p in EightWay(cx, cy, x, y) && q in Mirrors(cx, cy, p) ==>
              q in EightWay(cx, cy, x, y)
  {
  }

  /** Appends each of `pts` that is not yet among `points`, in order. */
  function AddNew(points: seq<Pixel>, pts: seq<Pixel>): (r: seq<Pixel>)
    ensures NoDup(points) ==> NoDup(r)
    ensures forall p :: p in r <==> p in points || p in pts
    ensures |points| <= |r| && r[..|points|] == points
    decreases |pts|
  {
    if |pts| == 0 then points
    else
      var next := if pts[0] in points then points else points + [pts[0]];
      var r := AddNew(next, pts[1..]);
      assert r[..|points|] == r[..|next|][..|points|];
      r
  }

  /** `x² + y² - r²`: how far the offset `(x, y)` lies outside the circle. */
  function Residual(r: int, x: int, y: int): int
  {
    x * x + y * y - r * r
  }

  /** The midpoint criterion in the form the decision variable tracks: the
      circle passes between heights `y - 1/2` and `y + 1/2` at column `x`,
      i.e. `x² + (y - 1/2)² < r² - 1/4 <= x² + (y + 1/2)²`. */
  predicate Nearest(r: int, x: int, y: int)
  {
    Residual(r, x, y) + Residual(r, x, y - 1) < 0 <= Residual(r, x, y) + Residual(r, x, y + 1)
  }

  /** A pixel whose offsets from the centre, ordered by size, are an octant
      point chosen by the midpoint criterion. */
  predicate OnCircle(cx: int, cy: int, r: int, p: Pixel)
  {
    var u, v := IAbs(p.x - cx), IAbs(p.y - cy);
    if u <= v then Nearest(r, u, v) else Nearest(r, v, u)
  }

  /** How the decision variable changes between consecutive columns. */
  lemma DecisionSteps(r: int, x: int, y: int)
    ensures Residual(r, x + 2, y) + Residual(r, x + 2, y - 1) ==
            Residual(r, x + 1, y) + Residual(r, x + 1, y - 1) + 4 * x + 6
    ensures Residual(r, x + 2, y - 1) + Residual(r, x + 2, y - 2) ==
            Residual(r, x + 1, y) + Residual(r, x + 1, y - 1) + 4 * (x - y) + 10
    ensures Residual(r, x + 1, y) + Residual(r, x + 1, y + 1) ==
            Residual(r, x, y) + Residual(r, x, y + 1) + 4 * x + 2
    ensures Residual(r, x + 1, y - 1) + Residual(r, x + 1, y - 2) ==
            Residual(r, x, y) + Residual(r, x, y - 1) + 4 * (x - y) + 6
  {
  }

  lemma EightWayOnCircle(cx: int, cy: int, r: int, x: int, y: int)
    requires 0 <= x <= y && Nearest(r, x, y)
    ensures forall p :: p in EightWay(cx, cy, x, y) ==> OnCircle(cx, cy, r, p)
  {
  }

  /** What the circle loop keeps true about its points collected so far. */
  ghost predicate PointsInv(cx: int, cy: int, r: nat, points: seq<Pixel>)
  {
    && NoDup(points)
    && Symmetric8(cx, cy, points)
    && (forall p :: p in points ==> p.c == 1.0 && IAbs(p.x - cx) <= r && IAbs(p.y - cy) <= r)
    && (r >= 1 ==> forall p :: p in points ==> OnCircle(cx, cy, r, p))
  }

  /** What the circle loop keeps true about its position and decision variable:
      `d` is the doubled midpoint residual of the next column, and the current
      height `y` is the midpoint choice for column `x`. */
  ghost predicate DecisionInv(r: nat, x: int, y: int, d: int)
  {
    && 0 <= x && -1 <= y <= r && x <= y + 2
    && d == Residual(r, x + 1, y) + Residual(r, x + 1, y - 1)
    && (r >= 1 ==> Residual(r, x, y) + Residual(r, x, y + 1) >= 0)
    && (r >= 1 && x <= y ==> Residual(r, x, y) + Residual(r, x, y - 1) < 0)
  }

  /** One iteration of the circle loop moves one column right, and one row
      down when the midpoint lies outside the circle; either way the decision
      variable is updated incrementally to the next column's residual. */
  lemma DecisionStep(r: nat, x: int, y: int, d: int)
    requires DecisionInv(r, x, y, d) && x <= y
    ensures d < 0 ==> DecisionInv(r, x + 1, y, d + 4 * x + 6)
    ensures d >= 0 ==> DecisionInv(r, x + 1, y - 1, d + 4 * (x - y) + 10)
    ensures r >= 1 ==> Nearest(r, x, y)
  {
    DecisionSteps(r, x, y);
  }

  /** Adding an octant point's images keeps what the loop knows about its
      points. */
  lemma OctantInv(cx: int, cy: int, r: nat, x: int, y: int, points: seq<Pixel>)
    requires PointsInv(cx, cy, r, points)
    requires 0 <= x <= y <= r && (r >= 1 ==> Nearest(r, x, y))
    ensures PointsInv(cx, cy, r, AddNew(points, EightWay(cx, cy, x, y)))
  {
    OctantBounds(cx, cy, r, x, y, points);
    if r >= 1 {
      OctantOnCircle(cx, cy, r, x, y, points);
    }
    OctantSymmetric(cx, cy, x, y, points);
  }

  /** The new images lie within `r` of the centre along both axes. */
  lemma OctantBounds(cx: int, cy: int, r: nat, x: int, y: int, points: seq<Pixel>)
    requires forall p :: p in points ==> p.c == 1.0 && IAbs(p.x - cx) <= r && IAbs(p.y - cy) <= r
    requires 0 <= x <= y <= r
    ensures forall p :: p in AddNew(points, EightWay(cx, cy, x, y)) ==>
              p.c == 1.0 && IAbs(p.x - cx) <= r && IAbs(p.y - cy) <= r
  {
    var octant := EightWay(cx, cy, x, y);
    EightWayBounds(cx, cy, r, x, y);
    forall p | p in AddNew(points, octant)
      ensures p.c == 1.0 && IAbs(p.x - cx) <= r && IAbs(p.y - cy) <= r
    {
      if p !in points {
        assert p in octant;
      }
    }
  }

  /** The images of an offset within `r` stay within `r` along both axes. */
  lemma EightWayBounds(cx: int, cy: int, r: nat, x: int, y: int)
    requires 0 <= x <= y <= r
    ensures forall p :: p in EightWay(cx, cy, x, y) ==>
              p.c == 1.0 && IAbs(p.x - cx) <= r && IAbs(p.y - cy) <= r
  {
  }

  /** The new images are on the circle when the octant point is. */
  lemma OctantOnCircle(cx: int, cy: int, r: nat, x: int, y: int, points: seq<Pixel>)
    requires forall p :: p in points ==> OnCircle(cx, cy, r, p)
    requires 0 <= x <= y && Nearest(r, x, y)
    ensures forall p :: p in AddNew(points, EightWay(cx, cy, x, y)) ==> OnCircle(cx, cy, r, p)
  {
    var octant := EightWay(cx, cy, x, y);
    EightWayOnCircle(cx, cy, r, x, y);
    forall p | p in AddNew(points, octant)
      ensures OnCircle(cx, cy, r, p)
    {
      if p !in points {
        assert p in octant;
      }
    }
  }

  /** Adding all eight images of one offset keeps the points closed under
      the reflections. */
  lemma OctantSymmetric(cx: int, cy: int, x: int, y: int, points: seq<Pixel>)
    requires Symmetric8(cx, cy, points)
    ensures Symmetric8(cx, cy, AddNew(points, EightWay(cx, cy, x, y)))
  {
    var octant := EightWay(cx, cy, x, y);
    var next := AddNew(points, octant);
    EightWayClosed(cx, cy, x, y);
    forall p, q | p in next && q in Mirrors(cx, cy, p)
      ensures q in next
    {
      if p in points {
        assert q in points;
      } else {
        assert p in octant;
      }
    }
  }

  /** The left side of the midpoint criterion at column `u`, height `w`. */
  function ColumnSum(r: int, u: int, w: int): int
  {
    Residual(r, u, w) + Residual(r, u, w - 1)
  }

  /** Above the centre row the column sum only grows with the height. */
  lemma {:induction false} ColumnSumGrows(r: int, u: int, v: int, w: int)
    requires 0 <= v <= w
    ensures ColumnSum(r, u, v + 1) <= ColumnSum(r, u, w + 1)
    decreases w - v
  {
    if v < w {
      ColumnSumGrows(r, u, v, w - 1);
      assert ColumnSum(r, u, w + 1) - ColumnSum(r, u, w) == 4 * w;
    }
  }

  /** Each column has at most one height chosen by the midpoint criterion. */
  lemma NearestUnique(r: int, u: int, v: int, w: int)
    requires 0 <= v && 0 <= w && Nearest(r, u, v) && Nearest(r, u, w)
    ensures v == w
  {
    if v < w {
      ColumnSumGrows(r, u, v, w - 1);
    } else if w < v {
      ColumnSumGrows(r, u, w, v - 1);
    }
  }

  lemma IntMulNonNegative(m: int, n: int)
    requires 0 <= m && 0 <= n
    ensures 0 <= m * n
  {
  }

  lemma SquareMonotone(x: int, u: int)
    requires 0 <= x <= u
    ensures x * x <= u * u
  {
    assert u * u - x * x == (u - x) * (u + x);
  }

  /** Once the loop has crossed the diagonal (`x > y`) with the height below
      the midpoint, no later column has an octant point. */
  lemma NoColumnBeyond(r: int, x: int, y: int, u: int, v: int)
    requires 0 <= x && -1 <= y < x && ColumnSum(r, x, y + 1) >= 0
    requires x <= u <= v
    ensures !Nearest(r, u, v)
  {
    SquareMonotone(x, u);
    assert v * v - v - (y * y + y) == (v - y - 1) * (v + y);
    if y >= 0 {
      IntMulNonNegative(v - y - 1, v + y);
    } else if v >= 1 {
      assert v * v - v == v * (v - 1);
      IntMulNonNegative(v, v - 1);
    }
    assert ColumnSum(r, u, v) >= ColumnSum(r, x, y + 1);
  }

  /** Every octant point of the columns before `x` has been drawn. */
  ghost predicate Complete(cx: int, cy: int, r: nat, x: int, points: seq<Pixel>)
  {
    r >= 1 ==> forall u, v :: 0 <= u < x && u <= v && Nearest(r, u, v) ==>
                 Pixel(cx + u, cy + v, 1.0) in points
  }

  /** A pixel with intensity 1 is drawn exactly when it lies on the circle:
      the closure under the eight reflections brings every octant point's
      images in, and nothing else was ever added. */
  lemma CircleExact(cx: int, cy: int, r: nat, points: seq<Pixel>)
    requires r >= 1 && PointsInv(cx, cy, r, points)
    requires forall u, v :: 0 <= u <= v && Nearest(r, u, v) ==> Pixel(cx + u, cy + v, 1.0) in points
    ensures forall p :: p in points <==> p.c == 1.0 && OnCircle(cx, cy, r, p)
  {
    OnCircleDrawn(cx, cy, r, points);
  }

  /** Every pixel on the circle is drawn once every octant point is. */
  lemma OnCircleDrawn(cx: int, cy: int, r: nat, points: seq<Pixel>)
    requires Symmetric8(cx, cy, points)
    requires forall u, v :: 0 <= u <= v && Nearest(r, u, v) ==> Pixel(cx + u, cy + v, 1.0) in points
    ensures forall p: Pixel :: p.c == 1.0 && OnCircle(cx, cy, r, p) ==> p in points
  {
    forall p: Pixel | p.c == 1.0 && OnCircle(cx, cy, r, p)
      ensures p in points
    {
      var u, v := IAbs(p.x - cx), IAbs(p.y - cy);
      if u <= v {
        assert Nearest(r, u, v);
        assert Pixel(cx + u, cy + v, 1.0) in points;
      } else {
        assert Nearest(r, v, u);
        assert Pixel(cx + v, cy + u, 1.0) in points;
      }
      MirrorDrawn(cx, cy, points, p);
    }
  }

  /** A symmetric set holding the octant representative of `p` holds `p`. */
  lemma MirrorDrawn(cx: int, cy: int, points: seq<Pixel>, p: Pixel)
    requires Symmetric8(cx, cy, points) && p.c == 1.0
    requires var u, v := IAbs(p.x - cx), IAbs(p.y - cy);
             Pixel(cx + u, cy + v, 1.0) in points || Pixel(cx + v, cy + u, 1.0) in points
    ensures p in points
  {
    var u, v := IAbs(p.x - cx), IAbs(p.y - cy);
    InEightWay(cx, cy, p);
    if Pixel(cx + u, cy + v, 1.0) in points {
      assert Mirrors(cx, cy, Pixel(cx + u, cy + v, 1.0)) == EightWay(cx, cy, u, v);
    } else {
      assert Mirrors(cx, cy, Pixel(cx + v, cy + u, 1.0)) == EightWay(cx, cy, v, u);
    }
  }

  /** A pixel is among the eight images of its own offsets' sizes, in
      either order. */
  lemma InEightWay(cx: int, cy: int, p: Pixel)
    requires p.c == 1.0
    ensures p in EightWay(cx, cy, IAbs(p.x - cx), IAbs(p.y - cy))
    ensures p in EightWay(cx, cy, IAbs(p.y - cy), IAbs(p.x - cx))
  {
  }

  /** `compute_circle_points` for the integer radius `r`: the points gathered
      by the loop, sorted by column and then row. */
  method Circle(cx: int, cy: int, r: nat) returns (pts: seq<Pixel>)
    ensures NoDup(pts)
    ensures SortedBy(pts, PixelKey)
    ensures Symmetric8(cx, cy, pts)
    ensures Pixel(cx, cy + r, 1.0) in pts
    ensures forall p :: p in pts ==> p.c == 1.0 && IAbs(p.x - cx) <= r && IAbs(p.y - cy) <= r
    ensures r >= 1 ==> forall p :: p in pts <==> p.c == 1.0 && OnCircle(cx, cy, r, p)
    ensures r == 0 ==> pts == [Pixel(cx, cy, 1.0)]
  {
    var points := CirclePoints(cx, cy, r);
    pts := SortBy(points, PixelKey);
    SortBySorted(points, PixelKey);
    SortByPerm(points, PixelKey);
    SamePixels(points, pts);
    if r >= 1 {
      CircleExact(cx, cy, r, points);
    } else {
      PointCircle(cx, cy, pts);
    }
  }

  /** With radius zero only the centre pixel is drawn. */
  lemma PointCircle(cx: int, cy: int, pts: seq<Pixel>)
    requires NoDup(pts) && Pixel(cx, cy, 1.0) in pts
    requires forall p :: p in pts ==> p.c == 1.0 && IAbs(p.x - cx) <= 0 && IAbs(p.y - cy) <= 0
    ensures pts == [Pixel(cx, cy, 1.0)]
  {
    AllSameCount(pts, Pixel(cx, cy, 1.0));
    NoDupCounts(pts, Pixel(cx, cy, 1.0));
    assert pts == [pts[0]];
  }

  /** The loop of `compute_circle_points`: the decision variable `d` selects
      each octant point by the midpoint criterion, and the eight images of
      each are added once. */
  method CirclePoints(cx: int, cy: int, r: nat) returns (points: seq<Pixel>)
    ensures PointsInv(cx, cy, r, points)
    ensures Pixel(cx, cy + r, 1.0) in points
    ensures r >= 1 ==> forall u, v :: 0 <= u <= v && Nearest(r, u, v) ==> Pixel(cx + u, cy + v, 1.0) in points
  {
    var x, y := 0, r as int;
    var d := 3 - 2 * r;
    points := [];
    while x <= y
      invariant DecisionInv(r, x, y, d)
      invariant PointsInv(cx, cy, r, points)
      invariant x == 0 ==> y == r
      invariant x > 0 ==> Pixel(cx, cy + r, 1.0) in points
      invariant Complete(cx, cy, r, x, points)
      decreases y - x + 1
    {
      points := AddOctant(cx, cy, r, x, y, d, points);
      x, y, d := CircleMove(r, x, y, d);
    }
    if r >= 1 {
      forall u, v | 0 <= u <= v && Nearest(r, u, v)
        ensures Pixel(cx + u, cy + v, 1.0) in points
      {
        if u >= x {
          NoColumnBeyond(r, x, y, u, v);
        }
      }
    }
  }

  /** `add_circle_points(cx, cy, x, y)` inside the loop: the eight images of
      the octant point join the collected points. */
  method AddOctant(cx: int, cy: int, r: nat, x: int, y: int, d: int, points: seq<Pixel>)
    returns (points': seq<Pixel>)
    requires DecisionInv(r, x, y, d) && PointsInv(cx, cy, r, points) && x <= y
    requires x == 0 ==> y == r
    requires x > 0 ==> Pixel(cx, cy + r, 1.0) in points
    requires Complete(cx, cy, r, x, points)
    ensures PointsInv(cx, cy, r, points')
    ensures Pixel(cx, cy + r, 1.0) in points'
    ensures Complete(cx, cy, r, x + 1, points')
  {
    DecisionStep(r, x, y, d);
    OctantInv(cx, cy, r, x, y, points);
    points' := AddNew(points, EightWay(cx, cy, x, y));
    ColumnAdded(cx, cy, r, x, y, points, points');
    if x == 0 {
      assert EightWay(cx, cy, x, y)[0] == Pixel(cx, cy + r, 1.0);
    }
  }

  lemma ColumnAdded(cx: int, cy: int, r: nat, x: int, y: int, points: seq<Pixel>, next: seq<Pixel>)
    requires 0 <= x <= y && (r >= 1 ==> Nearest(r, x, y))
    requires Complete(cx, cy, r, x, points)
    requires next == AddNew(points, EightWay(cx, cy, x, y))
    ensures Complete(cx, cy, r, x + 1, next)
  {
    if r >= 1 {
      forall u, v | 0 <= u < x + 1 && u <= v && Nearest(r, u, v)
        ensures Pixel(cx + u, cy + v, 1.0) in next
      {
        if u == x {
          NearestUnique(r, x, v, y);
          assert EightWay(cx, cy, x, y)[0] == Pixel(cx + u, cy + v, 1.0);
        }
      }
    }
  }

  /** The move of the circle loop: one column right, and one row down when
      the midpoint lies outside the circle. */
  method CircleMove(r: nat, x: int, y: int, d: int) returns (x': int, y': int, d': int)
    requires DecisionInv(r, x, y, d) && x <= y
    ensures DecisionInv(r, x', y', d')
    ensures x' == x + 1 && (y' == y || y' == y - 1)
  {
    DecisionStep(r, x, y, d);
    if d < 0 {
      x', y', d' := x + 1, y, d + 4 * x + 6;
    } else {
      x', y', d' := x + 1, y - 1, d + 4 * (x - y) + 10;
    }
  }

  /** Sorting keeps the pixels and their distinctness. */
  lemma SamePixels(points: seq<Pixel>, pts: seq<Pixel>)
    requires multiset(points) == multiset(pts)
    ensures forall p :: p in pts <==> p in points
    ensures NoDup(points) ==> NoDup(pts)
  {
    forall p
      ensures p in pts <==> p in points
    {
      assert p in pts <==> p in multiset(pts);
      assert p in points <==> p in multiset(points);
    }
    if NoDup(points) {
      NoDupPermutation(points, pts);
    }
  }

  // ---------------------------------------------------------------------
  // Ellipse

  /** A zero semi-axis is widened to one pixel. */
  function Semiaxis(v: nat): (r: nat)
    ensures r >= 1 && (v >= 1 ==> r == v)
  {
    if v == 0 then 1 else v
  }

  /** `b²X² + a²Y² - a²b²`: negative inside the ellipse with semi-axes `a`
      along x and `b` along y, positive outside. */
  function EllipseResidual(a: int, b: int, X: real, Y: real): real
  {
    var A, B := a as real, b as real;
    B * B * X * X + A * A * Y * Y - A * A * B * B
  }

  /** The midpoint rule, stated on the ellipse equation itself. While the
      slope is shallower than -1 (`b²x < a²y`) the walk moves right and drops
      a row exactly when the midpoint `(x + 1, y - 1/2)` is not inside; after
      that it moves down and steps right exactly when the midpoint
      `(x + 1/2, y - 1)` is not outside. */
  function EllipseNext(a: int, b: int, x: int, y: int): (n: (int, int))
    ensures n.0 == x || n.0 == x + 1
    ensures n.1 == y || n.1 == y - 1
    ensures n.0 == x + 1 || n.1 == y - 1
  {
    if b * b * x < a * a * y then
      (x + 1, if EllipseResidual(a, b, (x + 1) as real, y as real - 0.5) < 0.0 then y else y - 1)
    else
      (if EllipseResidual(a, b, x as real + 0.5, (y - 1) as real) > 0.0 then x else x + 1, y - 1)
  }

  /** The first-quadrant offsets the midpoint rule visits from `(x, y)`
      until the row drops below the centre. */
  function EllipseWalk(a: int, b: int, x: nat, y: int): seq<(int, int)>
    requires a >= 1 && b >= 1
    decreases y + 1, a * a * y - b * b * x
  {
    if y < 0 then []
    else
      var n := EllipseNext(a, b, x, y);
      [(x, y)] + EllipseWalk(a, b, n.0, n.1)
  }

  /** The four mirror images of the quadrant offset `(x, y)`, in the order
      `points.extend` appends them. */
  function FourWay(cx: int, cy: int, x: int, y: int): seq<Pixel>
  {
    [Pixel(cx + x, cy + y, 1.0), Pixel(cx - x, cy + y, 1.0),
     Pixel(cx + x, cy - y, 1.0), Pixel(cx - x, cy - y, 1.0)]
  }

  /** The four-way images of each offset of a walk, concatenated. */
  function Quads(cx: int, cy: int, hs: seq<(int, int)>): (r: seq<Pixel>)
    ensures |r| == 4 * |hs|
  {
    if |hs| == 0 then [] else FourWay(cx, cy, hs[0].0, hs[0].1) + Quads(cx, cy, hs[1..])
  }

  /** A quadrant walk from `(x, y)`: it starts there, ends on the centre
      row, never leaves the band between, and every step goes one pixel
      right, one pixel down, or both. */
  predicate QuadrantWalk(w: seq<(int, int)>, x: int, y: int)
  {
    && |w| >= 1 && w[0] == (x, y) && w[|w| - 1].1 == 0
    && (forall k :: 0 <= k < |w| ==> x <= w[k].0 && 0 <= w[k].1 <= y)
    && (forall k :: 0 <= k < |w| - 1 ==>
          w[k + 1].0 - w[k].0 in {0, 1} && w[k].1 - w[k + 1].1 in {0, 1} &&
          w[k + 1] != w[k])
  }

  /** The midpoint rule's walk has the quadrant-walk shape. */
  lemma {:induction false} EllipseWalkShape(a: int, b: int, x: nat, y: int)
    requires a >= 1 && b >= 1 && y >= 0
    ensures QuadrantWalk(EllipseWalk(a, b, x, y), x, y)
    decreases y + 1, a * a * y - b * b * x
  {
    var n := EllipseNext(a, b, x, y);
    if n.1 < 0 {
      assert EllipseWalk(a, b, n.0, n.1) == [];
      assert EllipseWalk(a, b, x, y) == [(x, y)];
    } else {
      EllipseWalkShape(a, b, n.0, n.1);
      WalkCons(x, y, n, EllipseWalk(a, b, n.0, n.1));
    }
  }

  /** One step of right, down or both in front of a quadrant walk gives a
      quadrant walk. */
  lemma WalkCons(x: int, y: int, n: (int, int), rest: seq<(int, int)>)
    requires n.0 == x || n.0 == x + 1
    requires n.1 == y || n.1 == y - 1
    requires n.0 == x + 1 || n.1 == y - 1
    requires QuadrantWalk(rest, n.0, n.1)
    ensures QuadrantWalk([(x, y)] + rest, x, y)
  {
    var w := [(x, y)] + rest;
    forall k | 0 <= k < |w| - 1
      ensures w[k + 1].0 - w[k].0 in {0, 1} && w[k].1 - w[k + 1].1 in {0, 1} && w[k + 1] != w[k]
    {
      if k > 0 {
        assert w[k] == rest[k - 1] && w[k + 1] == rest[k];
      }
    }
  }

  lemma QuadsUnfold(cx: int, cy: int, a: int, b: int, x: nat, y: int)
    requires a >= 1 && b >= 1 && y >= 0
    ensures var n := EllipseNext(a, b, x, y);
            Quads(cx, cy, EllipseWalk(a, b, x, y))
              == FourWay(cx, cy, x, y) + Quads(cx, cy, EllipseWalk(a, b, n.0, n.1))
  {
    var n := EllipseNext(a, b, x, y);
    var w := EllipseWalk(a, b, x, y);
    assert w[1..] == EllipseWalk(a, b, n.0, n.1);
  }

  /** Every fourth pixel starts a group of four mirror images of one offset. */
  lemma {:induction false} QuadsGroups(cx: int, cy: int, hs: seq<(int, int)>)
    ensures var r := Quads(cx, cy, hs);
            forall k :: 0 <= k < |hs| ==> r[4 * k..4 * k + 4] == FourWay(cx, cy, hs[k].0, hs[k].1)
  {
    if |hs| > 0 {
      QuadsGroups(cx, cy, hs[1..]);
      var r := Quads(cx, cy, hs);
      var rest := Quads(cx, cy, hs[1..]);
      forall k | 0 <= k < |hs|
        ensures r[4 * k..4 * k + 4] == FourWay(cx, cy, hs[k].0, hs[k].1)
      {
        if k > 0 {
          assert r[4 * k..4 * k + 4] == rest[4 * (k - 1)..4 * (k - 1) + 4];
          assert hs[k] == hs[1..][k - 1];
        }
      }
    }
  }

  /** The four images of `p` under the reflections in the two axes through
      the centre (and the point reflection). */
  function Mirrors4(cx: int, cy: int, p: Pixel): seq<Pixel>
  {
    FourWay(cx, cy, p.x - cx, p.y - cy)
  }

  /** The set of pixels is closed under both axis reflections. */
  predicate Symmetric4(cx: int, cy: int, s: seq<Pixel>)
  {
    forall p, q :: p in s && q in Mirrors4(cx, cy, p) ==> q in s
  }

  /** The four-way images of offsets are symmetric and fully intense. */
  lemma {:induction false} QuadsSymmetric(cx: int, cy: int, hs: seq<(int, int)>)
    ensures Symmetric4(cx, cy, Quads(cx, cy, hs))
    ensures forall p :: p in Quads(cx, cy, hs) ==> p.c == 1.0
  {
    if |hs| > 0 {
      QuadsSymmetric(cx, cy, hs[1..]);
      var head := FourWay(cx, cy, hs[0].0, hs[0].1);
      var rest := Quads(cx, cy, hs[1..]);
      var all := Quads(cx, cy, hs);
      assert all == head + rest;
      forall p, q | p in all && q in Mirrors4(cx, cy, p)
        ensures q in all
      {
        if p in head {
          assert q in head;
        } else {
          assert p in rest;
          assert q in rest;
        }
      }
    }
  }

  /** What `compute_ellipse_points` draws: groups of four mirror images,
      starting with the top and bottom vertices `(cx, cy ± b)` and ending on
      the centre row, symmetric about both axes through the centre. */
  lemma EllipseOutline(cx: int, cy: int, a: int, b: int)
    requires a >= 1 && b >= 1
    ensures var w := EllipseWalk(a, b, 0, b);
            var pts := Quads(cx, cy, w);
            && |w| >= 1 && |pts| == 4 * |w|
            && pts[..4] == FourWay(cx, cy, 0, b)
            && pts[|pts| - 4..] == FourWay(cx, cy, w[|w| - 1].0, 0)
            && (forall k :: 0 <= k < |w| ==> pts[4 * k..4 * k + 4] == FourWay(cx, cy, w[k].0, w[k].1))
            && Symmetric4(cx, cy, pts) && (forall p :: p in pts ==> p.c == 1.0)
  {
    var w := EllipseWalk(a, b, 0, b);
    EllipseWalkShape(a, b, 0, b);
    QuadsGroups(cx, cy, w);
    QuadsSymmetric(cx, cy, w);
    var pts := Quads(cx, cy, w);
    assert pts[..4] == pts[4 * 0..4 * 0 + 4];
    assert pts[|pts| - 4..] == pts[4 * (|w| - 1)..4 * (|w| - 1) + 4];
  }

  /** The ellipse with semi-axes 2 and 1 visits `(0, 1)`, `(1, 1)`, `(2, 0)`. */
  lemma EllipseExample(a: int, b: int)
    requires a == 2 && b == 1
    ensures EllipseWalk(a, b, 0, b) == [(0, 1), (1, 1), (2, 0)]
  {
    assert EllipseResidual(a, b, 1.0, 0.5) == -2.0;
    assert EllipseNext(a, b, 0, 1) == (1, 1);
    assert EllipseResidual(a, b, 2.0, 0.5) == 1.0;
    assert EllipseNext(a, b, 1, 1) == (2, 0);
    assert EllipseResidual(a, b, 2.5, -1.0) == 6.25;
    assert EllipseNext(a, b, 2, 0) == (2, -1);
    assert EllipseWalk(a, b, 2, -1) == [];
  }

  /** The loop state of the first region: `dx` and `dy` are the doubled
      gradient terms `2b²x` and `2a²y`, and `d1` is the residual at the
      midpoint `(x + 1, y - 1/2)`. */
  ghost predicate Region1Inv(a: int, b: int, x: int, y: int, dx: int, dy: int, d1: real)
  {
    && a >= 1 && b >= 1 && 0 <= x && 0 <= y
    && dx == 2 * b * b * x && dy == 2 * a * a * y
    && d1 == EllipseResidual(a, b, (x + 1) as real, y as real - 0.5)
  }

  /** The loop state of the second region: `d2` is the residual at the
      midpoint `(x + 1/2, y - 1)`, and the slope stays at -1 or steeper. */
  ghost predicate Region2Inv(a: int, b: int, x: int, y: int, dx: int, dy: int, d2: real)
  {
    && a >= 1 && b >= 1 && 0 <= x
    && dx == 2 * b * b * x && dy == 2 * a * a * y && dx >= dy
    && d2 == EllipseResidual(a, b, x as real + 0.5, (y - 1) as real)
  }

  lemma CastMul(m: int, n: int)
    ensures (m * n) as real == (m as real) * (n as real)
  {
  }

  /** The starting values of `d1` and `d2` are the midpoint residuals. */
  lemma DecisionStarts(a: int, b: int, x: int, y: int)
    ensures EllipseResidual(a, b, 1.0, b as real - 0.5)
            == (b * b) as real - (a * a * b) as real + 0.25 * (a as real) * (a as real)
    ensures EllipseResidual(a, b, x as real + 0.5, (y - 1) as real)
            == (b * b) as real * ((x as real + 0.5) * (x as real + 0.5))
               + (a * a) as real * ((y - 1) * (y - 1)) as real - (a * a * b * b) as real
  {
    CastMul(b, b);
    CastMul(a, a);
    CastMul(a * a, b);
    CastMul(a * a, b * b);
    CastMul(y - 1, y - 1);
  }

  /** The incremental updates of `d1` and `d2` move the residual to the
      next midpoint. */
  lemma DecisionUpdates(a: int, b: int, x: int, y: int)
    ensures EllipseResidual(a, b, (x + 2) as real, y as real - 0.5)
            == EllipseResidual(a, b, (x + 1) as real, y as real - 0.5)
               + (2 * b * b * (x + 1)) as real + (b * b) as real
    ensures EllipseResidual(a, b, (x + 2) as real, (y - 1) as real - 0.5)
            == EllipseResidual(a, b, (x + 1) as real, y as real - 0.5)
               + (2 * b * b * (x + 1)) as real - (2 * a * a * (y - 1)) as real + (b * b) as real
    ensures EllipseResidual(a, b, x as real + 0.5, (y - 2) as real)
            == EllipseResidual(a, b, x as real + 0.5, (y - 1) as real)
               + (a * a) as real - (2 * a * a * (y - 1)) as real
    ensures EllipseResidual(a, b, (x + 1) as real + 0.5, (y - 2) as real)
            == EllipseResidual(a, b, x as real + 0.5, (y - 1) as real)
               + (2 * b * b * (x + 1)) as real - (2 * a * a * (y - 1)) as real + (a * a) as real
  {
    CastMul(b, b);
    CastMul(a, a);
    CastMul(2 * b * b, x + 1);
    CastMul(2 * a * a, y - 1);
  }

  /** `compute_ellipse_points` for the integer semi-axes `ea` and `eb`: the
      pixels are the four-way images of the offsets the midpoint rule visits
      from the top of the ellipse down to its centre row. */
  method Ellipse(cx: int, cy: int, ea: nat, eb: nat) returns (pts: seq<Pixel>)
    ensures pts == Quads(cx, cy, EllipseWalk(Semiaxis(ea), Semiaxis(eb), 0, Semiaxis(eb)))
  {
    var a, b := Semiaxis(ea), Semiaxis(eb);
    var x: int, y: int := 0, b;
    DecisionStarts(a, b, x, y);
    var d1: real := (b * b) as real - (a * a * b) as real + 0.25 * (a as real) * (a as real);
    var dx, dy := 2 * b * b * x, 2 * a * a * y;
    ghost var all := Quads(cx, cy, EllipseWalk(a, b, 0, b));
    pts := [];
    while dx < dy
      invariant Region1Inv(a, b, x, y, dx, dy, d1)
      invariant pts + Quads(cx, cy, EllipseWalk(a, b, x, y)) == all
      decreases dy - dx
    {
      pts, x, y, dx, dy, d1 := Region1Step(cx, cy, a, b, x, y, dx, dy, d1, pts, all);
    }
    DecisionStarts(a, b, x, y);
    var d2: real := (b * b) as real * ((x as real + 0.5) * (x as real + 0.5))
                    + (a * a) as real * ((y - 1) * (y - 1)) as real - (a * a * b * b) as real;
    while y >= 0
      invariant Region2Inv(a, b, x, y, dx, dy, d2)
      invariant pts + Quads(cx, cy, EllipseWalk(a, b, x, y)) == all
      decreases y + 1
    {
      pts, x, y, dx, dy, d2 := Region2Step(cx, cy, a, b, x, y, dx, dy, d2, pts, all);
    }
  }

  /** One pass of the first loop of `compute_ellipse_points`. */
  method Region1Step(cx: int, cy: int, a: int, b: int, x: int, y: int, dx: int, dy: int, d1: real,
                     pts: seq<Pixel>, ghost all: seq<Pixel>)
    returns (pts': seq<Pixel>, x': int, y': int, dx': int, dy': int, d1': real)
    requires Region1Inv(a, b, x, y, dx, dy, d1) && dx < dy
    requires pts + Quads(cx, cy, EllipseWalk(a, b, x, y)) == all
    ensures Region1Inv(a, b, x', y', dx', dy', d1')
    ensures pts' + Quads(cx, cy, EllipseWalk(a, b, x', y')) == all
    ensures dy' - dx' < dy - dx
  {
    pts' := pts + FourWay(cx, cy, x, y);
    DecisionUpdates(a, b, x, y);
    if d1 < 0.0 {
      x', y' := x + 1, y;
      dx', dy' := dx + 2 * b * b, dy;
      d1' := d1 + dx' as real + (b * b) as real;
    } else {
      x', y' := x + 1, y - 1;
      dx', dy' := dx + 2 * b * b, dy - 2 * a * a;
      d1' := d1 + dx' as real - dy' as real + (b * b) as real;
    }
    Region1Moves(a, b, x, y, dx, dy, d1);
    QuadsUnfold(cx, cy, a, b, x, y);
  }

  lemma Region1Moves(a: int, b: int, x: int, y: int, dx: int, dy: int, d1: real)
    requires Region1Inv(a, b, x, y, dx, dy, d1) && dx < dy
    ensures y >= 1
    ensures d1 < 0.0 ==> EllipseNext(a, b, x, y) == (x + 1, y)
    ensures d1 >= 0.0 ==> EllipseNext(a, b, x, y) == (x + 1, y - 1)
    ensures 2 * b * b * (x + 1) == dx + 2 * b * b && 2 * a * a * (y - 1) == dy - 2 * a * a
  {
  }

  /** One pass of the second loop of `compute_ellipse_points`. */
  method Region2Step(cx: int, cy: int, a: int, b: int, x: int, y: int, dx: int, dy: int, d2: real,
                     pts: seq<Pixel>, ghost all: seq<Pixel>)
    returns (pts': seq<Pixel>, x': int, y': int, dx': int, dy': int, d2': real)
    requires Region2Inv(a, b, x, y, dx, dy, d2) && y >= 0
    requires pts + Quads(cx, cy, EllipseWalk(a, b, x, y)) == all
    ensures Region2Inv(a, b, x', y', dx', dy', d2')
    ensures pts' + Quads(cx, cy, EllipseWalk(a, b, x', y')) == all
    ensures y' == y - 1
  {
    pts' := pts + FourWay(cx, cy, x, y);
    DecisionUpdates(a, b, x, y);
    if d2 > 0.0 {
      x', y' := x, y - 1;
      dx', dy' := dx, dy - 2 * a * a;
      d2' := d2 + (a * a) as real - dy' as real;
    } else {
      x', y' := x + 1, y - 1;
      dx', dy' := dx + 2 * b * b, dy - 2 * a * a;
      d2' := d2 + dx' as real - dy' as real + (a * a) as real;
    }
    Region2Moves(a, b, x, y, dx, dy, d2);
    QuadsUnfold(cx, cy, a, b, x, y);
  }

  lemma Region2Moves(a: int, b: int, x: int, y: int, dx: int, dy: int, d2: real)
    requires Region2Inv(a, b, x, y, dx, dy, d2)
    ensures d2 > 0.0 ==> EllipseNext(a, b, x, y) == (x, y - 1)
    ensures d2 <= 0.0 ==> EllipseNext(a, b, x, y) == (x + 1, y - 1)
    ensures 2 * b * b * (x + 1) == dx + 2 * b * b && 2 * a * a * (y - 1) == dy - 2 * a * a
  {
  }

  /** A sequence without repetitions holds each element once. */
  lemma {:induction false} NoDupCounts<T>(s: seq<T>, v: T)
    requires NoDup(s)
    ensures multiset(s)[v] <= 1
    decreases |s|
  {
    if |s| > 0 {
      assert s == [s[0]] + s[1..];
      assert NoDup(s[1..]) by {
        forall i, j | 0 <= i < j < |s| - 1
          ensures s[1..][i] != s[1..][j]
        {
          assert s[1..][i] == s[i + 1] && s[1..][j] == s[j + 1];
        }
      }
      NoDupCounts(s[1..], v);
      if s[0] == v {
        assert v !in s[1..] by {
          forall k | 0 <= k < |s| - 1
            ensures s[1..][k] != v
          {
            assert s[k + 1] != s[0];
          }
        }
      }
    }
  }

  /** A sequence holding one value only counts it once per position. */
  lemma {:induction false} AllSameCount<T>(s: seq<T>, v: T)
    requires forall p :: p in s ==> p == v
    ensures multiset(s)[v] == |s|
    decreases |s|
  {
    if |s| > 0 {
      assert s == [s[0]] + s[1..];
      assert s[0] in s;
      assert forall p :: p in s[1..] ==> p in s;
      AllSameCount(s[1..], v);
    }
  }

  /** Reordering a sequence without repetitions gives one without repetitions. */
  lemma NoDupPermutation<T>(a: seq<T>, b: seq<T>)
    requires NoDup(a) && multiset(a) == multiset(b)
    ensures NoDup(b)
  {
    forall i, j | 0 <= i < j < |b|
      ensures b[i] != b[j]
    {
      if b[i] == b[j] {
        var v := b[i];
        assert b == b[..i] + [v] + b[i + 1..j] + [v] + b[j + 1..];
        assert multiset(b)[v] >= 2;
        NoDupCounts(a, v);
        assert false;
      }
    }
  }
}
