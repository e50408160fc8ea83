/** The first-order rasterisers: DDA, integer Bresenham and Wu's antialiased
    line. Each returns the points it would plot, with their intensities. */
module Lines {
  import opened Scalar
  import opened Seqs

  /** A plotted point with real coordinates (DDA does not round). */
  datatype Plot = Plot(x: real, y: real, c: real)

  /** A plotted pixel and its coverage. */
  datatype Pixel = Pixel(x: int, y: int, c: real)

  predicate IsInteger(v: real)
  {
    v == v.Floor as real
  }

  // ---------------------------------------------------------------------
  // DDA

  /** `steps = int(max(abs(dx), abs(dy)))`. */
  function DdaSteps(x1: real, y1: real, x2: real, y2: real): (n: nat)
    ensures n as real <= Abs(x2 - x1) || n as real <= Abs(y2 - y1)
    ensures Abs(x2 - x1) < n as real + 1.0 && Abs(y2 - y1) < n as real + 1.0
  {
    var m := if Abs(x2 - x1) >= Abs(y2 - y1) then Abs(x2 - x1) else Abs(y2 - y1);
    Trunc(m)
  }

  /** The per-step increment along one axis; 0 when there are no steps. */
  function DdaInc(d: real, steps: nat): real
  {
    if steps != 0 then d / steps as real else 0.0
  }

  /** The `k`-th point DDA plots: the start moved `k` increments along. */
  function DdaPoint(x1: real, y1: real, x2: real, y2: real, k: nat): Plot
  {
    var steps := DdaSteps(x1, y1, x2, y2);
    Plot(x1 + k as real * DdaInc(x2 - x1, steps), y1 + k as real * DdaInc(y2 - y1, steps), 1.0)
  }

  /** `compute_dda_points`: `steps + 1` points, obtained by adding the
      increments to a running position, which are exactly the points
      `DdaPoint` places at `k` increments from the start. */
  method Dda(x1: real, y1: real, x2: real, y2: real) returns (pts: seq<Plot>)
    ensures |pts| == DdaSteps(x1, y1, x2, y2) + 1
    ensures forall k :: 0 <= k < |pts| ==> pts[k] == DdaPoint(x1, y1, x2, y2, k)
    ensures pts[0] == Plot(x1, y1, 1.0)
    ensures DdaSteps(x1, y1, x2, y2) > 0 ==> pts[|pts| - 1] == Plot(x2, y2, 1.0)
  {
    var steps := DdaSteps(x1, y1, x2, y2);
    var xInc := DdaInc(x2 - x1, steps);
    var yInc := DdaInc(y2 - y1, steps);
    var x, y := x1, y1;
    pts := [];
    var k := 0;
    while k < steps + 1
      invariant 0 <= k <= steps + 1
      invariant |pts| == k
      invariant x == x1 + k as real * xInc && y == y1 + k as real * yInc
      invariant forall i :: 0 <= i < k ==> pts[i] == DdaPoint(x1, y1, x2, y2, i)
    {
      pts := pts + [Plot(x, y, 1.0)];
      x := x + xInc;
      y := y + yInc;
      k := k + 1;
    }
    if steps > 0 {
      DdaReachesEnd(x1, y1, x2, y2);
    }
  }

  lemma StepsCover(d: real, steps: nat)
    requires steps > 0
    ensures steps as real * DdaInc(d, steps) == d
  {
  }

  /** With at least one step the last point is the end point. */
  lemma DdaReachesEnd(x1: real, y1: real, x2: real, y2: real)
    requires DdaSteps(x1, y1, x2, y2) > 0
    ensures DdaPoint(x1, y1, x2, y2, DdaSteps(x1, y1, x2, y2)) == Plot(x2, y2, 1.0)
  {
    var steps := DdaSteps(x1, y1, x2, y2);
    StepsCover(x2 - x1, steps);
    StepsCover(y2 - y1, steps);
  }

  /** With integer end points the line ends exactly at its end point, even
      when it has no steps, and neither coordinate moves by more than one per
      step. */
  lemma DdaIntegerEndpoints(x1: real, y1: real, x2: real, y2: real)
    requires IsInteger(x1) && IsInteger(y1) && IsInteger(x2) && IsInteger(y2)
    ensures DdaPoint(x1, y1, x2, y2, DdaSteps(x1, y1, x2, y2)) == Plot(x2, y2, 1.0)
    ensures var steps := DdaSteps(x1, y1, x2, y2);
            Abs(DdaInc(x2 - x1, steps)) <= 1.0 && Abs(DdaInc(y2 - y1, steps)) <= 1.0
  {
    var steps := DdaSteps(x1, y1, x2, y2);
    var dx, dy := x2 - x1, y2 - y1;
    var ix, iy := x2.Floor - x1.Floor, y2.Floor - y1.Floor;
    assert dx == ix as real && dy == iy as real;
    assert Abs(dx) == IAbs(ix) as real && Abs(dy) == IAbs(iy) as real;
    var m: int := if IAbs(ix) >= IAbs(iy) then IAbs(ix) else IAbs(iy);
    assert steps == m by {
      assert (m as real).Floor == m;
    }
    if steps == 0 {
      assert dx == 0.0 && dy == 0.0;
    } else {
      DdaReachesEnd(x1, y1, x2, y2);
      UnitIncrement(dx, steps);
      UnitIncrement(dy, steps);
    }
  }

  lemma UnitIncrement(d: real, steps: nat)
    requires steps > 0 && Abs(d) <= steps as real
    ensures Abs(DdaInc(d, steps)) <= 1.0
  {
    if d >= 0.0 {
      if d < steps as real {
        FractionInUnit(d, steps as real);
      }
    } else if -d < steps as real {
      FractionInUnit(-d, steps as real);
      assert d / steps as real == -((-d) / steps as real);
    }
  }

  // ---------------------------------------------------------------------
  // Bresenham

  /** The coordinate `k` unit steps from `from` in the direction of `to`
      (the step is +1 towards a larger end and -1 otherwise). */
  function Toward(from: int, to: int, k: int): int
  {
    if from < to then from + k else from - k
  }

  /** `n` copies of `a` added up. The error term is built from it rather than
      from `*` so that the solver unfolds it only where a proof asks. */
  function Times(a: int, n: nat): int
  {
    if n == 0 then 0 else Times(a, n - 1) + a
  }

  lemma {:induction false} TimesIsProduct(a: int, n: nat)
    ensures Times(a, n) == a * n
  {
    if n > 0 {
      TimesIsProduct(a, n - 1);
    }
  }

  /** The error term after `i` steps along x and `j` along y:
      `(j + 1) * dx - (i + 1) * dy`. */
  function BresenhamErr(dx: int, dy: int, i: nat, j: nat): int
  {
    Times(dx, j + 1) - Times(dy, i + 1)
  }

  lemma ErrStart(dx: int, dy: int)
    ensures BresenhamErr(dx, dy, 0, 0) == dx - dy
  {
    assert Times(dx, 1) == Times(dx, 0) + dx;
    assert Times(dy, 1) == Times(dy, 0) + dy;
  }

  lemma ErrSteps(dx: int, dy: int, i: nat, j: nat)
    ensures BresenhamErr(dx, dy, i + 1, j) == BresenhamErr(dx, dy, i, j) - dy
    ensures BresenhamErr(dx, dy, i, j + 1) == BresenhamErr(dx, dy, i, j) + dx
    ensures BresenhamErr(dx, dy, i + 1, j + 1) == BresenhamErr(dx, dy, i, j) - dy + dx
  {
  }

  lemma MulMonotone(a: int, b: int, c: int)
    requires a <= b && c >= 0
    ensures a * c <= b * c
  {
  }

  /** The walk never steps past the end along either axis. */
  lemma NoOvershoot(dx: int, dy: int, i: nat, j: nat)
    requires i <= dx && j <= dy && !(i == dx && j == dy)
    ensures i == dx ==> 2 * BresenhamErr(dx, dy, i, j) <= -dy
    ensures j == dy ==> 2 * BresenhamErr(dx, dy, i, j) >= dx
  {
    TimesIsProduct(dx, j + 1);
    TimesIsProduct(dy, i + 1);
    if i == dx {
      MulMonotone(j + 1, dy, dx);
      assert dy * dx == dx * dy;
      assert dx * (j + 1) == (j + 1) * dx;
      assert dy * (dx + 1) == dx * dy + dy;
    }
    if j == dy {
      MulMonotone(i + 1, dx, dy);
      assert dx * dy == dy * dx;
      assert dy * (i + 1) == (i + 1) * dy;
      assert dx * (dy + 1) == dy * dx + dx;
    }
  }

  /** One pass of the loop body: `e2 = 2 * err`; step along x when
      `e2 > -dy`, along y when `e2 < dx`, adjusting `err` for each. */
  function NextI(dx: int, dy: int, i: nat, err: int): nat
  {
    if 2 * err > -dy then i + 1 else i
  }

  function NextJ(dx: int, dy: int, j: nat, err: int): nat
  {
    if 2 * err < dx then j + 1 else j
  }

  function NextErr(dx: int, dy: int, err: int): int
  {
    (if 2 * err > -dy then err - dy else err) + (if 2 * err < dx then dx else 0)
  }

  /** The pixels from the one reached after `i` steps along x and `j` along
      y, with error term `err`, to the end: the loop of
      `compute_bresenham_points` from that state. */
  function BresenhamWalk(x1: int, y1: int, x2: int, y2: int, i: nat, j: nat, err: int): (r: seq<Pixel>)
    requires i <= IAbs(x2 - x1) && j <= IAbs(y2 - y1)
    requires err == BresenhamErr(IAbs(x2 - x1), IAbs(y2 - y1), i, j)
    ensures |r| >= 1 && r[0] == Pixel(Toward(x1, x2, i), Toward(y1, y2, j), 1.0)
    decreases (IAbs(x2 - x1) - i) + (IAbs(y2 - y1) - j)
  {
    var dx: int, dy: int := IAbs(x2 - x1), IAbs(y2 - y1);
    var p := Pixel(Toward(x1, x2, i), Toward(y1, y2, j), 1.0);
    if p.x == x2 && p.y == y2 then [p]
    else
      NoOvershoot(dx, dy, i, j);
      ErrSteps(dx, dy, i, j);
      [p] + BresenhamWalk(x1, y1, x2, y2, NextI(dx, dy, i, err), NextJ(dx, dy, j, err), NextErr(dx, dy, err))
  }

  /** The walk from the start pixel, with the initial error `dx - dy`. */
  function BresenhamLine(x1: int, y1: int, x2: int, y2: int): (r: seq<Pixel>)
    ensures |r| >= 1 && r[0] == Pixel(x1, y1, 1.0)
  {
    ErrStart(IAbs(x2 - x1), IAbs(y2 - y1));
    BresenhamWalk(x1, y1, x2, y2, 0, 0, IAbs(x2 - x1) - IAbs(y2 - y1))
  }

  /** The loop state of `compute_bresenham_points` after `i` steps along x
      and `j` along y: the running pixel and the error term those steps
      give. */
  ghost predicate BresenhamAt(x1: int, y1: int, x2: int, y2: int, i: nat, j: nat, x: int, y: int, err: int)
  {
    && i <= IAbs(x2 - x1) && j <= IAbs(y2 - y1)
    && x == Toward(x1, x2, i) && y == Toward(y1, y2, j)
    && err == BresenhamErr(IAbs(x2 - x1), IAbs(y2 - y1), i, j)
  }

  /** `compute_bresenham_points`: the line from `(x1, y1)` to `(x2, y2)`
      starts and ends on those pixels, steps to an 8-neighbour each time,
      and has one pixel per step along the longer axis, at most one per
      step along both. */
  method Bresenham(x1: int, y1: int, x2: int, y2: int) returns (pts: seq<Pixel>)
    ensures pts == BresenhamLine(x1, y1, x2, y2)
    ensures |pts| >= 1 && pts[0] == Pixel(x1, y1, 1.0) && pts[|pts| - 1] == Pixel(x2, y2, 1.0)
    ensures Chain(x1, x2, y1, y2, pts)
    ensures IAbs(x2 - x1) + 1 <= |pts| && IAbs(y2 - y1) + 1 <= |pts|
    ensures |pts| <= IAbs(x2 - x1) + IAbs(y2 - y1) + 1
    ensures forall k :: 0 <= k < |pts| ==> Between(x1, pts[k].x, x2) && Between(y1, pts[k].y, y2)
  {
    pts := BresenhamLoop(x1, y1, x2, y2);
    BresenhamLineShape(x1, y1, x2, y2, pts);
    ChainBetween(x1, y1, x2, y2, pts);
  }

  /** The loop of `compute_bresenham_points` as written: the running pixel
      `(x, y)` and error term `err` updated in place until the end pixel is
      plotted. */
  method BresenhamLoop(x1: int, y1: int, x2: int, y2: int) returns (pts: seq<Pixel>)
    ensures pts == BresenhamLine(x1, y1, x2, y2)
  {
    var dx: int, dy: int := IAbs(x2 - x1), IAbs(y2 - y1);
    var sx := if x1 < x2 then 1 else -1;
    var sy := if y1 < y2 then 1 else -1;
    var err := dx - dy;
    ErrStart(dx, dy);
    var x, y := x1, y1;
    ghost var i: nat, j: nat := 0, 0;
    ghost var total := BresenhamLine(x1, y1, x2, y2);
    pts := [];
    while true
      invariant BresenhamAt(x1, y1, x2, y2, i, j, x, y, err)
      invariant pts + BresenhamWalk(x1, y1, x2, y2, i, j, err) == total
      decreases (dx - i) + (dy - j)
    {
      var x', y', err' := BresenhamStep(dx, dy, sx, sy, x, y, err);
      if x == x2 && y == y2 {
        pts := pts + [Pixel(x, y, 1.0)];
        return;
      }
      ghost var i', j' := BresenhamTurn(x1, y1, x2, y2, i, j, x, y, err, x', y', err');
      ConsStep(pts, Pixel(x, y, 1.0), BresenhamWalk(x1, y1, x2, y2, i, j, err),
               BresenhamWalk(x1, y1, x2, y2, i', j', err'), total);
      pts := pts + [Pixel(x, y, 1.0)];
      x, y, err := x', y', err';
      i, j := i', j';
    }
  }

  /** The whole line ends on the end pixel, is a chain of 8-neighbours, and
      has one pixel per step along the major axis, at most one per step
      along both. */
  lemma BresenhamLineShape(x1: int, y1: int, x2: int, y2: int, r: seq<Pixel>)
    requires r == BresenhamLine(x1, y1, x2, y2)
    ensures |r| >= 1 && r[0] == Pixel(x1, y1, 1.0) && r[|r| - 1] == Pixel(x2, y2, 1.0)
    ensures Chain(x1, x2, y1, y2, r)
    ensures IAbs(x2 - x1) + 1 <= |r| && IAbs(y2 - y1) + 1 <= |r|
    ensures |r| <= IAbs(x2 - x1) + IAbs(y2 - y1) + 1
  {
    ErrStart(IAbs(x2 - x1), IAbs(y2 - y1));
    BresenhamWalkShape(x1, y1, x2, y2, 0, 0, IAbs(x2 - x1) - IAbs(y2 - y1));
  }

  /** One turn of the loop away from the end pixel: the updated pixel and
      error term are the state after the steps the walk takes next, and the
      walk from the old state is the old pixel followed by the walk from the
      new one. */
  lemma BresenhamTurn(x1: int, y1: int, x2: int, y2: int, i: nat, j: nat, x: int, y: int, err: int,
                      x': int, y': int, err': int)
    returns (i': nat, j': nat)
    requires BresenhamAt(x1, y1, x2, y2, i, j, x, y, err)
    requires x != x2 || y != y2
    requires x' == if 2 * err > -(IAbs(y2 - y1) as int) then x + (if x1 < x2 then 1 else -1) else x
    requires y' == if 2 * err < IAbs(x2 - x1) then y + (if y1 < y2 then 1 else -1) else y
    requires err' == NextErr(IAbs(x2 - x1), IAbs(y2 - y1), err)
    ensures BresenhamAt(x1, y1, x2, y2, i', j', x', y', err')
    ensures BresenhamWalk(x1, y1, x2, y2, i, j, err)
            == [Pixel(x, y, 1.0)] + BresenhamWalk(x1, y1, x2, y2, i', j', err')
  {
    var dx: int, dy: int := IAbs(x2 - x1), IAbs(y2 - y1);
    WalkStep(x1, y1, x2, y2, i, j, err);
    i', j' := NextI(dx, dy, i, err), NextJ(dx, dy, j, err);
  }

  /** The loop body after the end test: `e2 = 2 * err`, then the x step when
      `e2 > -dy` and the y step when `e2 < dx`. */
  method BresenhamStep(dx: int, dy: int, sx: int, sy: int, x0: int, y0: int, err0: int)
    returns (x: int, y: int, err: int)
    ensures x == if 2 * err0 > -dy then x0 + sx else x0
    ensures y == if 2 * err0 < dx then y0 + sy else y0
    ensures err == NextErr(dx, dy, err0)
  {
    x, y, err := x0, y0, err0;
    var e2 := 2 * err;
    if e2 > -dy {
      err := err - dy;
      x := x + sx;
    }
    if e2 < dx {
      err := err + dx;
      y := y + sy;
    }
  }

  /** One unfolding of the walk away from the end pixel: the next state is
      again a valid one. */
  lemma WalkStep(x1: int, y1: int, x2: int, y2: int, i: nat, j: nat, err: int)
    requires i <= IAbs(x2 - x1) && j <= IAbs(y2 - y1)
    requires err == BresenhamErr(IAbs(x2 - x1), IAbs(y2 - y1), i, j)
    requires Toward(x1, x2, i) != x2 || Toward(y1, y2, j) != y2
    ensures var dx, dy := IAbs(x2 - x1), IAbs(y2 - y1);
            var i', j', err' := NextI(dx, dy, i, err), NextJ(dx, dy, j, err), NextErr(dx, dy, err);
            i' <= dx && j' <= dy && err' == BresenhamErr(dx, dy, i', j') &&
            BresenhamWalk(x1, y1, x2, y2, i, j, err) ==
              [Pixel(Toward(x1, x2, i), Toward(y1, y2, j), 1.0)] + BresenhamWalk(x1, y1, x2, y2, i', j', err')
  {
    var dx: int, dy: int := IAbs(x2 - x1), IAbs(y2 - y1);
    NoOvershoot(dx, dy, i, j);
    ErrSteps(dx, dy, i, j);
  }

  /** The walk ends at the end pixel, every pixel has intensity 1, and each
      pixel is a distinct 8-neighbour of the previous one, moved by 0 or 1 in
      the line's direction along each axis. */
  lemma {:induction false} BresenhamWalkShape(x1: int, y1: int, x2: int, y2: int, i: nat, j: nat, err: int)
    requires i <= IAbs(x2 - x1) && j <= IAbs(y2 - y1)
    requires err == BresenhamErr(IAbs(x2 - x1), IAbs(y2 - y1), i, j)
    ensures var r := BresenhamWalk(x1, y1, x2, y2, i, j, err);
            r[|r| - 1] == Pixel(x2, y2, 1.0) &&
            Chain(x1, x2, y1, y2, r) &&
            |r| >= (IAbs(x2 - x1) - i) + 1 && |r| >= (IAbs(y2 - y1) - j) + 1 &&
            |r| <= (IAbs(x2 - x1) - i) + (IAbs(y2 - y1) - j) + 1
    decreases (IAbs(x2 - x1) - i) + (IAbs(y2 - y1) - j)
  {
    var dx: int, dy: int := IAbs(x2 - x1), IAbs(y2 - y1);
    var p := Pixel(Toward(x1, x2, i), Toward(y1, y2, j), 1.0);
    if p.x == x2 && p.y == y2 {
      assert i == dx && j == dy;
    } else {
      WalkStep(x1, y1, x2, y2, i, j, err);
      var i', j', err'' := NextI(dx, dy, i, err), NextJ(dx, dy, j, err), NextErr(dx, dy, err);
      BresenhamWalkShape(x1, y1, x2, y2, i', j', err'');
      StepAdjacent(x1, y1, x2, y2, i, j, err);
      ChainCons(x1, x2, y1, y2, p, BresenhamWalk(x1, y1, x2, y2, i', j', err''));
    }
  }

  /** The pixel the loop moves to is adjacent to the one it leaves. */
  lemma StepAdjacent(x1: int, y1: int, x2: int, y2: int, i: nat, j: nat, err: int)
    requires i <= IAbs(x2 - x1) && j <= IAbs(y2 - y1)
    requires err == BresenhamErr(IAbs(x2 - x1), IAbs(y2 - y1), i, j)
    requires Toward(x1, x2, i) != x2 || Toward(y1, y2, j) != y2
    ensures var dx, dy := IAbs(x2 - x1), IAbs(y2 - y1);
            Neighbour8(x1, x2, y1, y2, Pixel(Toward(x1, x2, i), Toward(y1, y2, j), 1.0),
                     Pixel(Toward(x1, x2, NextI(dx, dy, i, err)), Toward(y1, y2, NextJ(dx, dy, j, err)), 1.0))
  {
    NoOvershoot(IAbs(x2 - x1), IAbs(y2 - y1), i, j);
  }

  /** Full-intensity pixels, each adjacent to the one before. */
  predicate Chain(x1: int, x2: int, y1: int, y2: int, r: seq<Pixel>)
  {
    (forall k :: 0 <= k < |r| ==> r[k].c == 1.0) &&
    (forall k :: 0 <= k < |r| - 1 ==> Neighbour8(x1, x2, y1, y2, r[k], r[k + 1]))
  }

  lemma ChainCons(x1: int, x2: int, y1: int, y2: int, p: Pixel, rest: seq<Pixel>)
    requires Chain(x1, x2, y1, y2, rest) && |rest| > 0
    requires p.c == 1.0 && Neighbour8(x1, x2, y1, y2, p, rest[0])
    ensures Chain(x1, x2, y1, y2, [p] + rest)
  {
    var r := [p] + rest;
    forall k | 0 <= k < |r| - 1
      ensures Neighbour8(x1, x2, y1, y2, r[k], r[k + 1])
    {
      if k > 0 {
        assert r[k] == rest[k - 1] && r[k + 1] == rest[k];
      }
    }
  }

  /** The unit step of `compute_bresenham_points` along one axis, fixed for
      the whole line: +1 when the end lies higher, -1 otherwise. */
  function Direction(from: int, to: int): int
  {
    if from < to then 1 else -1
  }

  /** `q` follows `p`: along each axis it stays or moves one unit in the
      line's fixed direction from start to end, and it moves along at least
      one axis. */
  predicate Neighbour8(x1: int, x2: int, y1: int, y2: int, p: Pixel, q: Pixel)
  {
    (q.x - p.x == 0 || q.x - p.x == Direction(x1, x2)) &&
    (q.y - p.y == 0 || q.y - p.y == Direction(y1, y2)) &&
    (q.x != p.x || q.y != p.y)
  }

  /** `v` lies between `a` and `b`, end points included. */
  predicate Between(a: int, v: int, b: int)
  {
    (a <= v <= b) || (b <= v <= a)
  }

  /** Along a chain every coordinate moves one way only: pixel `l` is no
      further back than pixel `k` in the line's direction. */
  lemma {:induction false} ChainMonotone(x1: int, x2: int, y1: int, y2: int, r: seq<Pixel>, k: nat, l: nat)
    requires Chain(x1, x2, y1, y2, r) && k <= l < |r|
    ensures if x1 < x2 then r[k].x <= r[l].x else r[l].x <= r[k].x
    ensures if y1 < y2 then r[k].y <= r[l].y else r[l].y <= r[k].y
    decreases l - k
  {
    if k < l {
      ChainMonotone(x1, x2, y1, y2, r, k, l - 1);
      assert Neighbour8(x1, x2, y1, y2, r[l - 1], r[l]);
    }
  }

  /** A chain from `(x1, y1)` to `(x2, y2)` never leaves the box the two
      end points span: no pixel overshoots the end or falls behind the start. */
  lemma ChainBetween(x1: int, y1: int, x2: int, y2: int, r: seq<Pixel>)
    requires Chain(x1, x2, y1, y2, r) && |r| >= 1
    requires r[0].x == x1 && r[0].y == y1 && r[|r| - 1].x == x2 && r[|r| - 1].y == y2
    ensures forall k :: 0 <= k < |r| ==> Between(x1, r[k].x, x2) && Between(y1, r[k].y, y2)
  {
    forall k | 0 <= k < |r|
      ensures Between(x1, r[k].x, x2) && Between(y1, r[k].y, y2)
    {
      ChainMonotone(x1, x2, y1, y2, r, 0, k);
      ChainMonotone(x1, x2, y1, y2, r, k, |r| - 1);
    }
  }

  /** Bresenham's line from (0,0) to (5,2). */
  lemma BresenhamExample()
    ensures BresenhamLine(0, 0, 5, 2) ==
            [Pixel(0, 0, 1.0), Pixel(1, 0, 1.0), Pixel(2, 1, 1.0),
             Pixel(3, 1, 1.0), Pixel(4, 2, 1.0), Pixel(5, 2, 1.0)]
  {
  }

  // ---------------------------------------------------------------------
  // Wu

  /** The line after the two normalising swaps of `compute_wu_points`: axes
      exchanged when it is steep, then end points ordered along the major
      axis, which is now `a`. */
  datatype WuLine = WuLine(steep: bool, a0: real, b0: real, a1: real, b1: real, gradient: real)

  /** A point of the normalised frame, in canvas coordinates. */
  function Orient(steep: bool, a: real, b: real): (real, real)
  {
    if steep then (b, a) else (a, b)
  }

  function WuSetup(x0: real, y0: real, x1: real, y1: real): (w: WuLine)
    ensures w.steep <==> Abs(y1 - y0) > Abs(x1 - x0)
    ensures w.a0 <= w.a1 && Abs(w.b1 - w.b0) <= w.a1 - w.a0
    ensures (Orient(w.steep, w.a0, w.b0) == (x0, y0) && Orient(w.steep, w.a1, w.b1) == (x1, y1)) ||
            (Orient(w.steep, w.a0, w.b0) == (x1, y1) && Orient(w.steep, w.a1, w.b1) == (x0, y0))
    ensures w.a1 == w.a0 ==> w.gradient == 1.0
    ensures w.a1 > w.a0 ==> w.gradient * (w.a1 - w.a0) == w.b1 - w.b0 && -1.0 <= w.gradient <= 1.0
  {
    var steep := Abs(y1 - y0) > Abs(x1 - x0);
    var (p0, q0, p1, q1) := if steep then (y0, x0, y1, x1) else (x0, y0, x1, y1);
    var (a0, b0, a1, b1) := if p0 > p1 then (p1, q1, p0, q0) else (p0, q0, p1, q1);
    MinorWithinMajor(p0, q0, p1, q1);
    WuGradient(steep, a0, b0, a1, b1)
  }

  /** The gradient `dy / dx`, or 1 when the line has no extent along the
      major axis, for end points already ordered along that axis. */
  function WuGradient(steep: bool, a0: real, b0: real, a1: real, b1: real): (w: WuLine)
    requires a0 <= a1 && Abs(b1 - b0) <= a1 - a0
    ensures w.steep == steep && w.a0 == a0 && w.b0 == b0 && w.a1 == a1 && w.b1 == b1
    ensures a1 == a0 ==> w.gradient == 1.0
    ensures a1 > a0 ==> w.gradient * (a1 - a0) == b1 - b0 && -1.0 <= w.gradient <= 1.0
  {
    var dx, dy := a1 - a0, b1 - b0;
    if dx != 0.0 then
      SlopeInUnit(dy, dx);
      WuLine(steep, a0, b0, a1, b1, dy / dx)
    else
      WuLine(steep, a0, b0, a1, b1, 1.0)
  }

  /** After ordering along the major axis, the minor axis changes by no
      more than the major one. */
  lemma MinorWithinMajor(p0: real, q0: real, p1: real, q1: real)
    requires Abs(q1 - q0) <= Abs(p1 - p0)
    ensures p0 > p1 ==> Abs(q0 - q1) <= p0 - p1
    ensures p0 <= p1 ==> Abs(q1 - q0) <= p1 - p0
  {
    assert Abs(q0 - q1) == Abs(q1 - q0);
  }

  lemma SlopeInUnit(dy: real, dx: real)
    requires dx > 0.0 && Abs(dy) <= dx
    ensures -1.0 <= dy / dx <= 1.0
    ensures dy / dx * dx == dy
  {
    if dy >= 0.0 {
      if dy < dx { FractionInUnit(dy, dx); }
    } else if -dy < dx {
      FractionInUnit(-dy, dx);
      assert dy / dx == -((-dy) / dx);
    }
  }

  /** A pixel of the normalised frame, in canvas coordinates. */
  function WuPixel(steep: bool, a: int, b: int, c: real): Pixel
  {
    if steep then Pixel(b, a, c) else Pixel(a, b, c)
  }

  /** The two pixels straddling height `y` in column `a`, covered `rfpart`
      and `fpart` of it, scaled by `gap`. */
  function WuPair(steep: bool, a: int, y: real, gap: real): seq<Pixel>
  {
    [WuPixel(steep, a, IPart(y), RFPart(y) * gap), WuPixel(steep, a, IPart(y) + 1, FPart(y) * gap)]
  }

  /** The first end point: column, exact height and horizontal gap. */
  function WuStart(w: WuLine): (int, real, real)
  {
    var xend := Round(w.a0);
    (xend, w.b0 + w.gradient * (xend as real - w.a0), RFPart(w.a0 + 0.5))
  }

  function WuEnd(w: WuLine): (int, real, real)
  {
    var xend := Round(w.a1);
    (xend, w.b1 + w.gradient * (xend as real - w.a1), FPart(w.a1 + 0.5))
  }

  /** The number of interior columns, strictly between the two end columns. */
  function WuInterior(w: WuLine): nat
  {
    var n := WuEnd(w).0 - WuStart(w).0 - 1;
    if n > 0 then n else 0
  }

  /** The running height `intery` in the `k`-th interior column. */
  function WuHeight(w: WuLine, k: nat): real
  {
    if k == 0 then WuStart(w).1 + w.gradient else WuHeight(w, k - 1) + w.gradient
  }

  /** Adding the gradient column after column keeps `intery` on the line:
      in the `k`-th interior column it is the start height plus `k + 1`
      gradients. */
  lemma {:induction false} WuHeightOnLine(w: WuLine, k: nat)
    ensures WuHeight(w, k) == WuStart(w).1 + (k + 1) as real * w.gradient
  {
    if k > 0 {
      WuHeightOnLine(w, k - 1);
      assert (k + 1) as real * w.gradient == k as real * w.gradient + w.gradient;
    }
  }

  /** `compute_wu_points`: the end pairs, and between them one pair per
      interior column whose heights follow the running `intery`. */
  method Wu(x0: real, y0: real, x1: real, y1: real) returns (pts: seq<Pixel>)
    ensures var w := WuSetup(x0, y0, x1, y1);
            |pts| == 4 + 2 * WuInterior(w)
    ensures var w := WuSetup(x0, y0, x1, y1);
            pts[..2] == WuPair(w.steep, WuStart(w).0, WuStart(w).1, WuStart(w).2)
    ensures var w := WuSetup(x0, y0, x1, y1);
            pts[|pts| - 2..] == WuPair(w.steep, WuEnd(w).0, WuEnd(w).1, WuEnd(w).2)
    ensures var w := WuSetup(x0, y0, x1, y1);
            forall k :: 0 <= k < WuInterior(w) ==>
              pts[2 + 2 * k..4 + 2 * k] == WuPair(w.steep, WuStart(w).0 + 1 + k, WuHeight(w, k), 1.0)
    ensures forall k :: 0 <= k < |pts| ==> 0.0 <= pts[k].c <= 1.0
  {
    pts := WuPoints(WuSetup(x0, y0, x1, y1));
  }

  /** The drawing part of `compute_wu_points`, once the line is normalised. */
  method WuPoints(w: WuLine) returns (pts: seq<Pixel>)
    ensures |pts| == 4 + 2 * WuInterior(w)
    ensures pts[..2] == WuPair(w.steep, WuStart(w).0, WuStart(w).1, WuStart(w).2)
    ensures pts[|pts| - 2..] == WuPair(w.steep, WuEnd(w).0, WuEnd(w).1, WuEnd(w).2)
    ensures forall k :: 0 <= k < WuInterior(w) ==>
              pts[2 + 2 * k..4 + 2 * k] == WuPair(w.steep, WuStart(w).0 + 1 + k, WuHeight(w, k), 1.0)
    ensures forall k :: 0 <= k < |pts| ==> 0.0 <= pts[k].c <= 1.0
  {
    var first := WuPair(w.steep, WuStart(w).0, WuStart(w).1, WuStart(w).2);
    var mid := WuColumns(w);
    var last := WuPair(w.steep, WuEnd(w).0, WuEnd(w).1, WuEnd(w).2);
    pts := first + mid + last;
    forall k | 0 <= k < WuInterior(w)
      ensures pts[2 + 2 * k..4 + 2 * k] == WuPair(w.steep, WuStart(w).0 + 1 + k, WuHeight(w, k), 1.0)
    {
      assert pts[2 + 2 * k..4 + 2 * k] == mid[2 * k..2 * k + 2];
    }
    WuCoverage(w, first, mid, last, pts);
  }

  /** Every pixel of the end pairs and the interior pairs is covered by a
      fraction between 0 and 1. */
  lemma WuCoverage(w: WuLine, first: seq<Pixel>, mid: seq<Pixel>, last: seq<Pixel>, pts: seq<Pixel>)
    requires first == WuPair(w.steep, WuStart(w).0, WuStart(w).1, WuStart(w).2)
    requires last == WuPair(w.steep, WuEnd(w).0, WuEnd(w).1, WuEnd(w).2)
    requires forall k :: 0 <= k < |mid| ==> 0.0 <= mid[k].c <= 1.0
    requires pts == first + mid + last
    ensures forall k :: 0 <= k < |pts| ==> 0.0 <= pts[k].c <= 1.0
  {
    WuGaps(w);
    WuPairCoverage(w.steep, WuStart(w).0, WuStart(w).1, WuStart(w).2);
    WuPairCoverage(w.steep, WuEnd(w).0, WuEnd(w).1, WuEnd(w).2);
    forall k | 0 <= k < |pts|
      ensures 0.0 <= pts[k].c <= 1.0
    {
      if k < |first| {
        assert pts[k] == first[k];
      } else if k < |first| + |mid| {
        assert pts[k] == mid[k - |first|];
      } else {
        assert pts[k] == last[k - |first| - |mid|];
      }
    }
  }

  /** The interior pair is the general pair at full intensity. */
  lemma WuPairUnit(steep: bool, a: int, y: real)
    ensures [WuPixel(steep, a, IPart(y), RFPart(y)), WuPixel(steep, a, IPart(y) + 1, FPart(y))]
            == WuPair(steep, a, y, 1.0)
  {
  }

  /** The pixels drawn for the first `n` interior columns, from column
      `a + 1` on: one pair per column at its running height, each pixel
      covered by a fraction in [0, 1]. */
  ghost predicate WuDrawn(w: WuLine, a: int, n: nat, pts: seq<Pixel>)
  {
    && |pts| == 2 * n
    && (forall k :: 0 <= k < n ==>
          pts[2 * k..2 * k + 2] == WuPair(w.steep, a + 1 + k, WuHeight(w, k), 1.0))
    && (forall k :: 0 <= k < |pts| ==> 0.0 <= pts[k].c <= 1.0)
  }

  /** Drawing the pair of the next interior column extends what is drawn by
      one column. */
  lemma WuDrawnStep(w: WuLine, a: int, n: nat, pts: seq<Pixel>, pair: seq<Pixel>)
    requires WuDrawn(w, a, n, pts)
    requires pair == WuPair(w.steep, a + 1 + n, WuHeight(w, n), 1.0)
    ensures WuDrawn(w, a, n + 1, pts + pair)
  {
    WuPairCoverage(w.steep, a + 1 + n, WuHeight(w, n), 1.0);
    var pts' := pts + pair;
    forall k | 0 <= k < n + 1
      ensures pts'[2 * k..2 * k + 2] == WuPair(w.steep, a + 1 + k, WuHeight(w, k), 1.0)
    {
      if k < n {
        assert pts'[2 * k..2 * k + 2] == pts[2 * k..2 * k + 2];
      } else {
        assert pts'[2 * k..2 * k + 2] == pair;
      }
    }
  }

  /** The main loop over the columns strictly between the two end pixels,
      advancing `intery` by the gradient after each column. */
  method WuColumns(w: WuLine) returns (pts: seq<Pixel>)
    ensures |pts| == 2 * WuInterior(w)
    ensures forall k :: 0 <= k < WuInterior(w) ==>
              pts[2 * k..2 * k + 2] == WuPair(w.steep, WuStart(w).0 + 1 + k, WuHeight(w, k), 1.0)
    ensures forall k :: 0 <= k < |pts| ==> 0.0 <= pts[k].c <= 1.0
  {
    var xpxl1, xpxl2 := WuStart(w).0, WuEnd(w).0;
    var intery := WuStart(w).1 + w.gradient;
    pts := [];
    var x := xpxl1 + 1;
    while x < xpxl2
      invariant xpxl1 + 1 <= x && (x <= xpxl2 || x == xpxl1 + 1)
      invariant intery == WuHeight(w, x - xpxl1 - 1)
      invariant WuDrawn(w, xpxl1, x - xpxl1 - 1, pts)
    {
      pts, intery := WuColumn(w, xpxl1, x, intery, pts);
      x := x + 1;
    }
  }

  /** One pass of the interior loop: plot column `x` and step `intery`. */
  method WuColumn(w: WuLine, a: int, x: int, intery: real, pts: seq<Pixel>)
    returns (pts': seq<Pixel>, intery': real)
    requires a + 1 <= x && intery == WuHeight(w, x - a - 1)
    requires WuDrawn(w, a, x - a - 1, pts)
    ensures intery' == WuHeight(w, x - a)
    ensures WuDrawn(w, a, x - a, pts')
  {
    var pair := [WuPixel(w.steep, x, IPart(intery), RFPart(intery)),
                 WuPixel(w.steep, x, IPart(intery) + 1, FPart(intery))];
    WuPairUnit(w.steep, x, intery);
    WuDrawnStep(w, a, x - a - 1, pts, pair);
    pts' := pts + pair;
    intery' := intery + w.gradient;
  }

  /** Every intensity Wu plots is a coverage in [0, 1], and the two pixels of
      a column share it out: an interior pair sums to 1, an end pair to its
      horizontal gap. */
  lemma WuPairCoverage(steep: bool, a: int, y: real, gap: real)
    requires 0.0 <= gap <= 1.0
    ensures forall p :: p in WuPair(steep, a, y, gap) ==> 0.0 <= p.c <= 1.0
    ensures WuPair(steep, a, y, gap)[0].c + WuPair(steep, a, y, gap)[1].c == gap
  {
    ScaleBetween(gap, RFPart(y));
    ScaleBetween(gap, FPart(y));
    assert RFPart(y) * gap + FPart(y) * gap == (RFPart(y) + FPart(y)) * gap;
  }

  /** The two pixels of a pair are neighbours across the minor axis: same
      column, heights `IPart(y)` and `IPart(y) + 1`. */
  lemma WuPairAdjacent(steep: bool, a: int, y: real, gap: real)
    ensures var pr := WuPair(steep, a, y, gap);
            if steep then pr[0].y == pr[1].y == a && pr[1].x == pr[0].x + 1
            else pr[0].x == pr[1].x == a && pr[1].y == pr[0].y + 1
  {
  }

  /** The horizontal gaps of both end pairs lie in [0, 1]. */
  lemma WuGaps(w: WuLine)
    ensures 0.0 <= WuStart(w).2 <= 1.0 && 0.0 <= WuEnd(w).2 <= 1.0
  {
  }
}
