/** The two convex hulls of the kernel: `convex_hull` (Andrew's monotone chain,
    called Graham in the source) and `convex_hull_jarvis` (gift wrapping). */
module Hull {
  import opened Geometry
  import opened Sorting
  import opened Intersection
  import opened Scalar

  /** Points compare as the tuples `(x, y)` do in Python. */
  function PointKey(p: Point): Key
  {
    Key(p.x, p.y)
  }

  predicate LexLe(a: Point, b: Point)
  {
    KeyLe(PointKey(a), PointKey(b))
  }

  lemma LexAntisymmetric(a: Point, b: Point)
    requires LexLe(a, b) && LexLe(b, a)
    ensures a == b
  {
  }

  /** `min(points, key=lambda p: (p[0], p[1]))`: scans left to right and
      replaces the running minimum only by a strictly smaller point. */
  function LexMin(pts: seq<Point>): (m: Point)
    requires |pts| > 0
    ensures m in pts
    ensures forall q :: q in pts ==> LexLe(m, q)
  {
    if |pts| == 1 then pts[0]
    else
      var init := pts[..|pts| - 1];
      var last := pts[|pts| - 1];
      assert pts == init + [last];
      var m := LexMin(init);
      if KeyLe(PointKey(m), PointKey(last)) then m else last
  }

  /** The only point that is lexicographically below every input point is the
      one `LexMin` picks. */
  lemma LexMinUnique(pts: seq<Point>, m: Point)
    requires |pts| > 0
    requires m in pts && forall q :: q in pts ==> LexLe(m, q)
    ensures m == LexMin(pts)
  {
    LexAntisymmetric(m, LexMin(pts));
  }

  // ---------------------------------------------------------------------
  // Monotone chain

  /** Every consecutive triple of the chain turns strictly counter-clockwise. */
  predicate StrictlyLeft(c: seq<Point>)
  {
    forall i :: 0 <= i && i + 2 < |c| ==> Cross(c[i], c[i + 1], c[i + 2]) > 0.0
  }

  /** The inner `while len(chain) >= 2 and cross(chain[-2], chain[-1], p) <= 0:
      chain.pop()`. */
  function PopWhile(c: seq<Point>, p: Point): (r: seq<Point>)
    ensures |r| <= |c| && r == c[..|r|]
    ensures |c| >= 1 ==> |r| >= 1
    ensures |r| >= 2 ==> Cross(r[|r| - 2], r[|r| - 1], p) > 0.0
    decreases |c|
  {
    if |c| >= 2 && Cross(c[|c| - 2], c[|c| - 1], p) <= 0.0 then PopWhile(c[..|c| - 1], p)
    else c
  }

  /** One iteration of the outer loop: pop the non-left turns, then append. */
  function Push(c: seq<Point>, p: Point): (r: seq<Point>)
    requires StrictlyLeft(c)
    ensures StrictlyLeft(r)
    ensures |r| >= 1 && r[|r| - 1] == p
    ensures |c| >= 1 ==> |r| >= 2 && r[0] == c[0]
    ensures forall q :: q in r ==> q in c || q == p
  {
    PushLeft(c, p);
    var kept := PopWhile(c, p);
    assert forall q :: q in kept ==> q in c;
    kept + [p]
  }

  /** Appending after the pops keeps every turn of the chain a left turn. */
  lemma {:induction false} PushLeft(c: seq<Point>, p: Point)
    requires StrictlyLeft(c)
    ensures StrictlyLeft(PopWhile(c, p) + [p])
    decreases |c|
  {
    if |c| >= 2 && Cross(c[|c| - 2], c[|c| - 1], p) <= 0.0 {
      LeftPrefix(c, c[..|c| - 1]);
      PushLeft(c[..|c| - 1], p);
    } else {
      LeftAppend(c, p);
    }
  }

  lemma LeftPrefix(c: seq<Point>, k: seq<Point>)
    requires StrictlyLeft(c) && |k| <= |c| && k == c[..|k|]
    ensures StrictlyLeft(k)
  {
    forall i | 0 <= i && i + 2 < |k|
      ensures Cross(k[i], k[i + 1], k[i + 2]) > 0.0
    {
      assert k[i] == c[i] && k[i + 1] == c[i + 1] && k[i + 2] == c[i + 2];
    }
  }

  lemma LeftAppend(k: seq<Point>, p: Point)
    requires StrictlyLeft(k)
    requires |k| >= 2 ==> Cross(k[|k| - 2], k[|k| - 1], p) > 0.0
    ensures StrictlyLeft(k + [p])
  {
    var r := k + [p];
    forall i | 0 <= i && i + 2 < |r|
      ensures Cross(r[i], r[i + 1], r[i + 2]) > 0.0
    {
      if i + 2 < |k| {
        assert r[i] == k[i] && r[i + 1] == k[i + 1] && r[i + 2] == k[i + 2];
      } else {
        assert r[i] == k[|k| - 2] && r[i + 1] == k[|k| - 1] && r[i + 2] == p;
      }
    }
  }

  /** The chain built by feeding the points of `s` in order. */
  function BuildChain(s: seq<Point>): (c: seq<Point>)
    ensures StrictlyLeft(c)
    ensures |c| <= |s|
    ensures forall q :: q in c ==> q in s
    ensures |s| >= 1 ==> |c| >= 1 && c[0] == s[0] && c[|c| - 1] == s[|s| - 1]
    ensures |s| >= 2 ==> |c| >= 2
  {
    if |s| == 0 then []
    else
      var init := s[..|s| - 1];
      assert forall q :: q in init ==> q in s;
      var c := Push(BuildChain(init), s[|s| - 1]);
      assert |PopWhile(BuildChain(init), s[|s| - 1])| <= |init|;
      c
  }

  /** The points in the order `sorted()` puts them. */
  function SortedPoints(pts: seq<Point>): (r: seq<Point>)
    ensures SortedBy(r, PointKey)
    ensures multiset(r) == multiset(pts)
    ensures |r| == |pts|
  {
    SortBySorted(pts, PointKey);
    SortByPerm(pts, PointKey);
    SortBy(pts, PointKey)
  }

  /** The first point of the sorted order is the lexicographic minimum. */
  lemma SortedHeadIsLexMin(pts: seq<Point>)
    requires |pts| > 0
    ensures SortedPoints(pts)[0] == LexMin(pts)
  {
    var s := SortedPoints(pts);
    assert s[0] in multiset(pts);
    forall q | q in pts
      ensures LexLe(s[0], q)
    {
      assert q in multiset(s);
      var j :| 0 <= j < |s| && s[j] == q;
      if j > 0 {
        assert KeyLe(PointKey(s[0]), PointKey(s[j]));
      }
    }
    LexMinUnique(pts, s[0]);
  }

  /** The last point of the sorted order is the lexicographic maximum. */
  lemma SortedLastIsLexMax(pts: seq<Point>, q: Point)
    requires q in pts
    ensures LexLe(q, SortedPoints(pts)[|pts| - 1])
  {
    var s := SortedPoints(pts);
    assert q in multiset(s);
    var j :| 0 <= j < |s| && s[j] == q;
    if j < |s| - 1 {
      assert KeyLe(PointKey(s[j]), PointKey(s[|s| - 1]));
    }
  }

  function LowerChain(pts: seq<Point>): seq<Point>
  {
    BuildChain(SortedPoints(pts))
  }

  function UpperChain(pts: seq<Point>): seq<Point>
  {
    BuildChain(Reverse(SortedPoints(pts)))
  }

  lemma ChainPointsAreInputs(pts: seq<Point>)
    ensures forall q :: q in LowerChain(pts) ==> q in pts
    ensures forall q :: q in UpperChain(pts) ==> q in pts
  {
    var s := SortedPoints(pts);
    forall q | q in s
      ensures q in pts
    {
      assert q in multiset(s);
    }
    forall q | q in Reverse(s)
      ensures q in s
    {
      var k :| 0 <= k < |s| && Reverse(s)[k] == q;
    }
  }

  /** `convex_hull`: fewer than three points are returned as they are;
      otherwise the lower chain without its last point followed by the upper
      chain without its last point. */
  function ConvexHull(pts: seq<Point>): (h: seq<Point>)
    ensures |pts| < 3 ==> h == pts
    ensures forall q :: q in h ==> q in pts
    ensures |pts| >= 3 ==> |LowerChain(pts)| >= 2 && |UpperChain(pts)| >= 2
    ensures |pts| >= 3 ==> h == LowerChain(pts)[..|LowerChain(pts)| - 1] + UpperChain(pts)[..|UpperChain(pts)| - 1]
  {
    if |pts| < 3 then pts
    else
      var lower, upper := LowerChain(pts), UpperChain(pts);
      ChainPointsAreInputs(pts);
      var h := lower[..|lower| - 1] + upper[..|upper| - 1];
      assert forall q :: q in h ==> q in lower || q in upper;
      h
  }

  /** Both chains of the hull turn strictly counter-clockwise at every vertex. */
  lemma ConvexHullTurnsLeft(pts: seq<Point>)
    requires |pts| >= 3
    ensures StrictlyLeft(LowerChain(pts)) && StrictlyLeft(UpperChain(pts))
  {
  }

  /** The hull starts at the lexicographically smallest input point, and the
      upper chain starts at the largest one. */
  lemma ConvexHullEnds(pts: seq<Point>)
    requires |pts| >= 3
    ensures ConvexHull(pts)[0] == LexMin(pts)
    ensures var k := |LowerChain(pts)| - 1;
            k < |ConvexHull(pts)| && forall q :: q in pts ==> LexLe(q, ConvexHull(pts)[k])
  {
    var s := SortedPoints(pts);
    var h := ConvexHull(pts);
    var lower, upper := LowerChain(pts), UpperChain(pts);
    SortedHeadIsLexMin(pts);
    assert h[0] == lower[0] == s[0];
    assert h[|lower| - 1] == upper[0] == Reverse(s)[0] == s[|pts| - 1];
    forall q | q in pts
      ensures LexLe(q, h[|lower| - 1])
    {
      SortedLastIsLexMax(pts, q);
    }
  }

  // ---------------------------------------------------------------------
  // Gift wrapping

  /** `dist_sq(a, b)`: the squared distance, never negative and zero between
      a point and itself. */
  function DistSq(a: Point, b: Point): (d: real)
    ensures d >= 0.0
    ensures a == b ==> d == 0.0
  {
    var dx, dy := b.x - a.x, b.y - a.y;
    SquareNonNegative(dx);
    SquareNonNegative(dy);
    dx * dx + dy * dy
  }

  lemma SquareNonNegative(v: real)
    ensures v * v >= 0.0
  {
    if v < 0.0 {
      MulNonNegative(-v, -v);
      assert v * v == (-v) * (-v);
    } else {
      MulNonNegative(v, v);
    }
  }

  /** Whether `r` replaces `cand` as the wrapping candidate from `p`: it lies
      clockwise of `cand`, or on the same ray and farther away. */
  predicate Beats(p: Point, cand: Point, r: Point)
  {
    var cp := Cross(p, cand, r);
    cp < 0.0 || (cp == 0.0 && DistSq(p, r) > DistSq(p, cand))
  }

  /** The inner `for r in points` scan from index `i` with candidate `cand`;
      `None` is Python's `candidate = None`. */
  function Candidate(p: Point, pts: seq<Point>, i: nat, cand: Option<Point>): (c: Option<Point>)
    requires i <= |pts|
    ensures c.None? <==> cand.None? && forall k :: i <= k < |pts| ==> pts[k] == p
    ensures c.Some? ==> c.value != p || (cand.Some? && cand.value == p)
    ensures c.Some? ==> c.value in pts[i..] || (cand.Some? && c.value == cand.value)
    decreases |pts| - i
  {
    if i == |pts| then cand
    else
      var r := pts[i];
      var next :=
        if r == p then cand
        else if cand.None? then Some(r)
        else if Beats(p, cand.value, r) then Some(r)
        else cand;
      Candidate(p, pts, i + 1, next)
  }

  /** The result of `convex_hull_jarvis`: the hull, the `TypeError` Python
      raises once the candidate is `None` (every point equals the current one),
      or the loop still running when the fuel is spent. */
  datatype JarvisResult = Wrapped(hull: seq<Point>) | Degenerate | OutOfFuel

  /** The `while True` loop from `p` with `hull` already collected: appends
      `p`, moves to the candidate, and stops when the candidate is back at the
      start. At most `fuel` further points are visited. */
  function WrapFrom(pts: seq<Point>, start: Point, p: Point, hull: seq<Point>, fuel: nat): (r: JarvisResult)
    requires p in pts
    requires forall q :: q in hull ==> q in pts
    ensures r.Wrapped? ==> |r.hull| > |hull| && r.hull[..|hull|] == hull && r.hull[|hull|] == p
    ensures r.Wrapped? ==> |r.hull| <= |hull| + fuel + 1
    ensures r.Wrapped? ==> forall q :: q in r.hull ==> q in pts
    ensures r.Degenerate? <==> forall q :: q in pts ==> q == p
    decreases fuel
  {
    var hull' := hull + [p];
    var c := Candidate(p, pts, 0, None);
    if c.None? then
      assert forall q :: q in pts ==> q == p by {
        forall q | q in pts ensures q == p {
          var k :| 0 <= k < |pts| && pts[k] == q;
        }
      }
      Degenerate
    else if c.value == start then Wrapped(hull')
    else if fuel == 0 then OutOfFuel
    else
      assert c.value in pts;
      var r := WrapFrom(pts, start, c.value, hull', fuel - 1);
      assert r.Wrapped? ==> r.hull[..|hull|] == r.hull[..|hull'|][..|hull|];
      assert c.value != p;
      r
  }

  /** `convex_hull_jarvis(points)` run with at most `fuel + 1` hull points. */
  function ConvexHullJarvis(pts: seq<Point>, fuel: nat): (r: JarvisResult)
    ensures |pts| < 3 ==> r == Wrapped(pts)
    ensures |pts| >= 3 && r.Wrapped? ==> |r.hull| >= 1 && r.hull[0] == LexMin(pts)
    ensures r.Wrapped? ==> forall q :: q in r.hull ==> q in pts
    ensures |pts| >= 3 && r.Wrapped? ==> |r.hull| <= fuel + 1
    ensures |pts| >= 3 ==> (r.Degenerate? <==> forall q :: q in pts ==> q == pts[0])
  {
    if |pts| < 3 then Wrapped(pts)
    else
      var start := LexMin(pts);
      WrapFrom(pts, start, start, [], fuel)
  }

  /** Both hulls start from the same vertex: the lexicographically smallest
      input point. */
  lemma HullsShareFirstPoint(pts: seq<Point>, fuel: nat)
    requires |pts| >= 3
    requires ConvexHullJarvis(pts, fuel).Wrapped?
    ensures ConvexHullJarvis(pts, fuel).hull[0] == ConvexHull(pts)[0]
  {
    ConvexHullEnds(pts);
  }
}
