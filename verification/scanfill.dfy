/** The two scanline fills of the polygon editor. Each draws horizontal runs
    with `canvas.create_line(x_start, y, x_end, y)`; the model returns the
    runs in drawing order instead. The `debug_*` twins draw the same runs and
    refresh the canvas after every scanline, so they are modelled as the
    same runs grouped into one frame per refresh. */
module ScanFill {
  import opened Scalar
  import opened Geometry
  import opened Sorting
  import opened Seqs

  /** One `create_line(xStart, y, xEnd, y)` call. */
  datatype Span = Span(xStart: int, xEnd: int, y: int)

  // ---------------------------------------------------------------------
  // Pairing sorted crossings into spans

  /** Crossings 0-1, 2-3, ... become spans, truncated with `int()`; a trailing odd
      crossing is dropped. */
  function PairSpans(xs: seq<real>, y: int): seq<Span>
    decreases |xs|
  {
    if |xs| < 2 then [] else [Span(Trunc(xs[0]), Trunc(xs[1]), y)] + PairSpans(xs[2..], y)
  }

  /** Truncation toward zero never reverses an order. */
  lemma TruncMonotone(a: real, b: real)
    requires a <= b
    ensures Trunc(a) <= Trunc(b)
  {
    if 0.0 <= a {
      assert a.Floor <= b.Floor;
    } else if b < 0.0 {
      assert (-b).Floor <= (-a).Floor;
    }
  }

  /** A row with `k` crossings yields `k / 2` spans, span `i` joining
      crossings `2i` and `2i + 1`; on sorted crossings each span runs left to
      right and the spans follow each other without overlapping. */
  lemma {:induction false} PairSpansShape(xs: seq<real>, y: int)
    ensures var r := PairSpans(xs, y);
            && |r| == |xs| / 2
            && (forall i :: 0 <= i < |r| ==> r[i] == Span(Trunc(xs[2 * i]), Trunc(xs[2 * i + 1]), y))
            && (Ascending(xs) ==> forall i :: 0 <= i < |r| ==> r[i].xStart <= r[i].xEnd)
            && (Ascending(xs) ==> forall i :: 0 <= i < |r| - 1 ==> r[i].xEnd <= r[i + 1].xStart)
    decreases |xs|
  {
    if |xs| >= 2 {
      PairSpansShape(xs[2..], y);
      var r := PairSpans(xs, y);
      var rest := PairSpans(xs[2..], y);
      forall i | 0 <= i < |r|
        ensures r[i] == Span(Trunc(xs[2 * i]), Trunc(xs[2 * i + 1]), y)
      {
        if i > 0 {
          assert r[i] == rest[i - 1];
          assert xs[2..][2 * (i - 1)] == xs[2 * i];
          assert xs[2..][2 * (i - 1) + 1] == xs[2 * i + 1];
        }
      }
      if Ascending(xs) {
        forall i | 0 <= i < |r|
          ensures r[i].xStart <= r[i].xEnd
        {
          TruncMonotone(xs[2 * i], xs[2 * i + 1]);
        }
        forall i | 0 <= i < |r| - 1
          ensures r[i].xEnd <= r[i + 1].xStart
        {
          TruncMonotone(xs[2 * i + 1], xs[2 * i + 2]);
        }
      }
    }
  }

  /** The pairing loop of both fills (the active fill's row is written with
      `PairSpans`, which this loop computes): span `i` joins crossings `2i` and
      `2i + 1`, truncated; on ascending crossings the spans run left to
      right without overlapping. */
  method PairUp(xs: seq<real>, y: int) returns (row: seq<Span>)
    ensures row == PairSpans(xs, y)
    ensures |row| == |xs| / 2
    ensures forall i :: 0 <= i < |row| ==> row[i] == Span(Trunc(xs[2 * i]), Trunc(xs[2 * i + 1]), y)
    ensures Ascending(xs) ==> forall i :: 0 <= i < |row| ==> row[i].xStart <= row[i].xEnd
    ensures Ascending(xs) ==> forall i :: 0 <= i < |row| - 1 ==> row[i].xEnd <= row[i + 1].xStart
  {
    row := PairLoop(xs, y);
    PairSpansShape(xs, y);
  }

  /** The loop over the crossings two at a time; an odd last one is
      dropped. */
  method PairLoop(xs: seq<real>, y: int) returns (row: seq<Span>)
    ensures row == PairSpans(xs, y)
  {
    row := [];
    var i := 0;
    while i < |xs|
      invariant 0 <= i <= |xs| + 1 && i % 2 == 0
      invariant i <= |xs| ==> row + PairSpans(xs[i..], y) == PairSpans(xs, y)
      invariant i == |xs| + 1 ==> row == PairSpans(xs, y)
    {
      if i + 1 < |xs| {
        assert xs[i..][2..] == xs[i + 2..];
        row := row + [Span(Trunc(xs[i]), Trunc(xs[i + 1]), y)];
      }
      i := i + 2;
    }
  }

  // ---------------------------------------------------------------------
  // Ordered edge list fill

  function RealMin(a: real, b: real): real
  {
    if a <= b then a else b
  }

  function RealMax(a: real, b: real): real
  {
    if a >= b then a else b
  }

  /** The edge from `a` to `b` is not horizontal and covers row `y`,
      half-open at its upper end. */
  predicate MeetsRow(a: Point, b: Point, y: int)
  {
    a.y != b.y && RealMin(a.y, b.y) <= y as real < RealMax(a.y, b.y)
  }

  /** `x1 + (y - y1) * (x2 - x1) / (y2 - y1)`. */
  function RowX(a: Point, b: Point, y: int): real
    requires a.y != b.y
  {
    a.x + (y as real - a.y) * (b.x - a.x) / (b.y - a.y)
  }

  /** The crossings the inner loop collects for row `y` from edge `i` on, in
      edge order. */
  function RowCrossings(vs: seq<Point>, y: int, i: nat): seq<real>
    requires i <= |vs|
    decreases |vs| - i
  {
    if i == |vs| then []
    else
      var a, b := vs[i], EdgeEnd(vs, i);
      (if MeetsRow(a, b, y) then [RowX(a, b, y)] else []) + RowCrossings(vs, y, i + 1)
  }

  /** The spans of row `y`: its crossings sorted and paired. */
  function OrderedRow(vs: seq<Point>, y: int): seq<Span>
  {
    PairSpans(SortReals(RowCrossings(vs, y, 0)), y)
  }

  /** The first and last scanline of the ordered fill: `int()` of the least
      and greatest vertex height. */
  function OrderedLow(vs: seq<Point>): int
    requires vs != []
  {
    Trunc(MinY(vs))
  }

  function OrderedHigh(vs: seq<Point>): int
    requires vs != []
  {
    Trunc(MaxY(vs))
  }

  /** One frame per scanline from `y` up to `hi`, inclusive. */
  function OrderedRows(vs: seq<Point>, y: int, hi: int): (frames: seq<seq<Span>>)
    ensures |frames| == if y <= hi then hi - y + 1 else 0
    decreases hi - y
  {
    if y > hi then [] else [OrderedRow(vs, y)] + OrderedRows(vs, y + 1, hi)
  }

  /** `debug_fill_ordered_edge_list`: one frame per scanline from the lowest
      to the highest vertex row, inclusive. */
  function OrderedFrames(vs: seq<Point>): seq<seq<Span>>
    requires vs != []
  {
    OrderedRows(vs, OrderedLow(vs), OrderedHigh(vs))
  }

  /** The inner loop of `fill_polygon_ordered_edge_list` over the edges. */
  method Intersections(vs: seq<Point>, y: int) returns (xs: seq<real>)
    ensures xs == RowCrossings(vs, y, 0)
    ensures forall x: real :: CountAbove(xs, x) == CrossingCount(Point(x, y as real), vs, 0)
    ensures forall p: Point :: p.y == y as real ==> StraddleCount(p, vs, 0) == |xs|
    ensures |xs| % 2 == 0
  {
    xs := [];
    var n := |vs|;
    var i := 0;
    while i < n
      invariant 0 <= i <= n
      invariant xs + RowCrossings(vs, y, i) == RowCrossings(vs, y, 0)
    {
      var a, b := vs[i], vs[(i + 1) % n];
      if MeetsRow(a, b, y) {
        xs := xs + [RowX(a, b, y)];
      }
      i := i + 1;
    }
    RowCrossingsRay(vs, y);
  }

  /** The body of the row loop: crossings collected, sorted and paired. */
  method OrderedRowStep(vs: seq<Point>, y: int) returns (row: seq<Span>)
    ensures row == OrderedRow(vs, y)
    ensures 2 * |row| == |RowCrossings(vs, y, 0)|
    ensures forall s :: s in row ==> s.xStart <= s.xEnd && s.y == y
    ensures var cs := SortReals(RowCrossings(vs, y, 0));
      && (forall k :: 0 <= k < |row| ==> row[k] == Span(Trunc(cs[2 * k]), Trunc(cs[2 * k + 1]), y))
      && (forall x: real :: x !in RowCrossings(vs, y, 0) ==>
            (PointInPolygon(Point(x, y as real), vs) <==> exists k :: 0 <= k < |row| && cs[2 * k] < x < cs[2 * k + 1]))
  {
    var xs := Intersections(vs, y);
    xs := SortReals(xs);
    row := PairUp(xs, y);
    OrderedRowShape(vs, y);
    forall x: real | x !in RowCrossings(vs, y, 0)
      ensures PointInPolygon(Point(x, y as real), vs) <==> exists k :: 0 <= k < |row| && xs[2 * k] < x < xs[2 * k + 1]
    {
      OrderedRowInside(vs, x, y);
    }
  }

  /** One turn of the ordered fill's row loop appends row `y`'s spans. */
  lemma OrderedRowsStep(vs: seq<Point>, y: int, hi: int, spans: seq<Span>, row: seq<Span>, total: seq<Span>)
    requires y <= hi && row == OrderedRow(vs, y)
    requires spans + Flatten(OrderedRows(vs, y, hi)) == total
    ensures (spans + row) + Flatten(OrderedRows(vs, y + 1, hi)) == total
  {
    FlattenStep(spans, row, OrderedRows(vs, y, hi), OrderedRows(vs, y + 1, hi), total);
  }

  /** The row loop of `fill_polygon_ordered_edge_list`, from `lo` up to
      `hi` inclusive. */
  method OrderedLoop(vs: seq<Point>, lo: int, hi: int) returns (spans: seq<Span>)
    ensures spans == Flatten(OrderedRows(vs, lo, hi))
  {
    spans := [];
    var y := lo;
    ghost var total := Flatten(OrderedRows(vs, lo, hi));
    ghost var rest := OrderedRows(vs, lo, hi);
    while y <= hi
      invariant rest == OrderedRows(vs, y, hi)
      invariant spans + Flatten(rest) == total
      decreases hi - y
    {
      var row := OrderedRowStep(vs, y);
      OrderedRowsStep(vs, y, hi, spans, row, total);
      spans := spans + row;
      y := y + 1;
      rest := OrderedRows(vs, y, hi);
    }
  }

  /** `fill_polygon_ordered_edge_list`: the spans it draws are those of the
      debug twin's frames, in order. */
  method OrderedEdgeFill(vs: seq<Point>) returns (spans: seq<Span>)
    requires vs != []
    ensures spans == Flatten(OrderedFrames(vs))
  {
    spans := OrderedLoop(vs, Trunc(MinY(vs)), Trunc(MaxY(vs)));
  }

  // ---------------------------------------------------------------------
  // What a row's spans cover

  function Above(x: real): real -> bool
  {
    v => v > x
  }

  /** How many of the numbers lie strictly right of `x`. */
  function CountAbove(xs: seq<real>, x: real): nat
  {
    |Filter(Above(x), xs)|
  }

  /** The collected crossings are exactly the straddling edges' crossings:
      the ray from `(x, y)` counts the ones right of `x`, and there is one
      crossing per straddling edge. */
  lemma {:induction false} CrossingsMatchRay(vs: seq<Point>, x: real, y: int, i: nat)
    requires i <= |vs|
    ensures CrossingCount(Point(x, y as real), vs, i) == CountAbove(RowCrossings(vs, y, i), x)
    ensures StraddleCount(Point(x, y as real), vs, i) == |RowCrossings(vs, y, i)|
    decreases |vs| - i
  {
    if i < |vs| {
      var p, a, b := Point(x, y as real), vs[i], EdgeEnd(vs, i);
      CrossingsMatchRay(vs, x, y, i + 1);
      var head := if MeetsRow(a, b, y) then [RowX(a, b, y)] else [];
      FilterConcat(Above(x), head, RowCrossings(vs, y, i + 1));
      assert MeetsRow(a, b, y) <==> Straddles(p, a, b);
      if MeetsRow(a, b, y) {
        RowXIsCrossingX(p, a, b, y);
      }
    }
  }

  /** All of row `y`'s crossings at once: the ray from any point of the row
      counts the ones right of it, every point of the row sees one
      straddling edge per crossing, and there is an even number of them. */
  lemma RowCrossingsRay(vs: seq<Point>, y: int)
    ensures forall x: real :: CountAbove(RowCrossings(vs, y, 0), x) == CrossingCount(Point(x, y as real), vs, 0)
    ensures forall p: Point :: p.y == y as real ==> StraddleCount(p, vs, 0) == |RowCrossings(vs, y, 0)|
    ensures |RowCrossings(vs, y, 0)| % 2 == 0
  {
    forall x: real
      ensures CountAbove(RowCrossings(vs, y, 0), x) == CrossingCount(Point(x, y as real), vs, 0)
      ensures StraddleCount(Point(x, y as real), vs, 0) == |RowCrossings(vs, y, 0)|
    {
      CrossingsMatchRay(vs, x, y, 0);
    }
    forall p: Point | p.y == y as real
      ensures StraddleCount(p, vs, 0) == |RowCrossings(vs, y, 0)|
    {
      CrossingsMatchRay(vs, p.x, y, 0);
      assert p == Point(p.x, y as real);
    }
    if |vs| > 0 {
      StraddleParity(Point(0.0, y as real), vs, 0);
    }
  }

  /** The fill's crossing formula and the ray test's agree. */
  lemma RowXIsCrossingX(p: Point, a: Point, b: Point, y: int)
    requires MeetsRow(a, b, y) && p.y == y as real
    ensures RowX(a, b, y) == CrossingX(p, a, b)
  {
    var u, d, den := y as real - a.y, b.x - a.x, b.y - a.y;
    assert u * d == d * u;
  }

  /** Sorting does not change how many crossings lie right of `x`. */
  lemma CountAboveSorted(xs: seq<real>, x: real)
    ensures CountAbove(SortReals(xs), x) == CountAbove(xs, x)
  {
    SortRealsAscending(xs);
    FilterPerm(Above(x), SortReals(xs), xs);
    assert |multiset(Filter(Above(x), SortReals(xs)))| == |multiset(Filter(Above(x), xs))|;
  }

  /** In ascending numbers that avoid `x`, the ones right of `x` are a
      suffix starting at position `j`. */
  lemma {:induction false} AscendingSplit(xs: seq<real>, x: real) returns (j: nat)
    requires Ascending(xs) && x !in xs
    ensures j <= |xs| && CountAbove(xs, x) == |xs| - j
    ensures forall i :: 0 <= i < j ==> xs[i] < x
    ensures forall i :: j <= i < |xs| ==> xs[i] > x
    decreases |xs|
  {
    if |xs| == 0 {
      j := 0;
    } else {
      assert xs == [xs[0]] + xs[1..];
      FilterConcat(Above(x), [xs[0]], xs[1..]);
      assert x !in xs[1..];
      var j' := AscendingSplit(xs[1..], x);
      if xs[0] > x {
        j := 0;
        assert forall i :: 1 <= i < |xs| ==> xs[i] > x by {
          forall i | 1 <= i < |xs|
            ensures xs[i] > x
          {
            assert xs[0] <= xs[i];
          }
        }
        if |xs| > 1 {
          assert xs[1..][0] > x;
        }
        assert j' == 0;
      } else {
        j := j' + 1;
        forall i | 1 <= i < j
          ensures xs[i] < x
        {
          assert xs[i] == xs[1..][i - 1];
        }
        forall i | j <= i < |xs|
          ensures xs[i] > x
        {
          assert xs[i] == xs[1..][i - 1];
        }
      }
    }
  }

  /** Row `y` of the ordered fill covers exactly the inside of the polygon:
      away from the crossings themselves, `(x, y)` passes the ray-casting
      test precisely when `x` lies strictly between the two crossings of one
      of the pairs the fill joins. */
  lemma OrderedRowInside(vs: seq<Point>, x: real, y: int)
    requires x !in RowCrossings(vs, y, 0)
    ensures var xs := SortReals(RowCrossings(vs, y, 0));
            PointInPolygon(Point(x, y as real), vs) <==>
              exists k :: 0 <= k < |xs| / 2 && xs[2 * k] < x < xs[2 * k + 1]
  {
    var p := Point(x, y as real);
    var raw := RowCrossings(vs, y, 0);
    var xs := SortReals(raw);
    SortRealsAscending(raw);
    CrossingsMatchRay(vs, x, y, 0);
    CountAboveSorted(raw, x);
    if |vs| > 0 {
      StraddleParity(p, vs, 0);
    }
    assert |xs| % 2 == 0;
    assert x !in xs by {
      assert x !in multiset(raw);
    }
    InsidePair(xs, x);
  }

  /** In an even number of ascending values avoiding `x`, an odd number lie
      right of `x` exactly when `x` falls strictly inside one of the pairs
      0-1, 2-3, ... */
  lemma InsidePair(xs: seq<real>, x: real)
    requires Ascending(xs) && x !in xs && |xs| % 2 == 0
    ensures (CountAbove(xs, x) % 2 == 1) <==>
            exists k :: 0 <= k < |xs| / 2 && xs[2 * k] < x < xs[2 * k + 1]
  {
    var j := AscendingSplit(xs, x);
    if j % 2 == 1 {
      var k := (j - 1) / 2;
      assert 2 * k == j - 1;
      assert xs[2 * k] < x < xs[2 * k + 1];
    } else {
      forall k | 0 <= k < |xs| / 2
        ensures xs[2 * k] < x ==> xs[2 * k + 1] < x
      {
        if xs[2 * k] < x {
          assert 2 * k < j;
        }
      }
    }
  }

  /** A row with `k` crossings draws `k / 2` spans, each running left to
      right on that row; because the polygon is closed, `k` is even, so no
      crossing is left unpaired. */
  lemma OrderedRowShape(vs: seq<Point>, y: int)
    ensures 2 * |OrderedRow(vs, y)| == |RowCrossings(vs, y, 0)|
    ensures forall s :: s in OrderedRow(vs, y) ==> s.xStart <= s.xEnd && s.y == y
  {
    var xs := SortReals(RowCrossings(vs, y, 0));
    SortRealsAscending(RowCrossings(vs, y, 0));
    PairSpansShape(xs, y);
    CrossingsMatchRay(vs, 0.0, y, 0);
    if |vs| > 0 {
      StraddleParity(Point(0.0, y as real), vs, 0);
    }
    var r := OrderedRow(vs, y);
    forall s | s in r
      ensures s.xStart <= s.xEnd && s.y == y
    {
      var i :| 0 <= i < |r| && r[i] == s;
    }
  }

  /** Every span of the ordered fill runs left to right on a scanline
      between the lowest and the highest vertex. */
  lemma {:induction false} OrderedRowsValid(vs: seq<Point>, y: int, hi: int)
    ensures forall s :: s in Flatten(OrderedRows(vs, y, hi)) ==> s.xStart <= s.xEnd && y <= s.y <= hi
    decreases hi - y
  {
    if y <= hi {
      OrderedRowShape(vs, y);
      OrderedRowsValid(vs, y + 1, hi);
      assert Flatten(OrderedRows(vs, y, hi)) == OrderedRow(vs, y) + Flatten(OrderedRows(vs, y + 1, hi));
    }
  }

  /** A span of the concatenation comes from one of the frames. */
  lemma {:induction false} FlattenMembers(frames: seq<seq<Span>>)
    ensures forall s :: s in Flatten(frames) ==> exists k :: 0 <= k < |frames| && s in frames[k]
    decreases |frames|
  {
    if |frames| > 0 {
      FlattenMembers(frames[1..]);
      forall s | s in Flatten(frames)
        ensures exists k :: 0 <= k < |frames| && s in frames[k]
      {
        if s !in frames[0] {
          assert s in Flatten(frames[1..]);
          var k :| 0 <= k < |frames| - 1 && s in frames[1..][k];
          assert s in frames[k + 1];
        }
      }
    }
  }

  // ---------------------------------------------------------------------
  // Active edge list fill

  /** An edge-table entry `{"ymin", "ymax", "x", "inv_slope"}`: the rows the
      edge spans, its x at the current row, and how much x changes per row. */
  datatype Edge = Edge(ymin: int, ymax: int, x: real, invSlope: real)

  /** The entry of a non-horizontal edge, oriented upward: it starts at the
      lower end, and `ymin`/`ymax` are truncated with `int()`. */
  function MakeEdge(a: Point, b: Point): (e: Edge)
    requires a.y != b.y
    ensures e.ymin <= e.ymax
  {
    if a.y < b.y then
      TruncMonotone(a.y, b.y);
      Edge(Trunc(a.y), Trunc(b.y), a.x, (b.x - a.x) / (b.y - a.y))
    else
      TruncMonotone(b.y, a.y);
      Edge(Trunc(b.y), Trunc(a.y), b.x, (a.x - b.x) / (a.y - b.y))
  }

  /** The entries of the non-horizontal edges from `i` on, in edge order. */
  function EdgeList(vs: seq<Point>, i: nat): (es: seq<Edge>)
    requires i <= |vs|
    ensures forall e :: e in es ==> e.ymin <= e.ymax
    decreases |vs| - i
  {
    if i == |vs| then []
    else
      var a, b := vs[i], EdgeEnd(vs, i);
      (if a.y == b.y then [] else [MakeEdge(a, b)]) + EdgeList(vs, i + 1)
  }

  function YKey(e: Edge): Key
  {
    RealKey(e.ymin as real)
  }

  function XKey(e: Edge): Key
  {
    RealKey(e.x)
  }

  function EdgeX(e: Edge): real
  {
    e.x
  }

  /** `ET.sort(key=lambda e: e["ymin"])`. */
  function EdgeTable(vs: seq<Point>): seq<Edge>
  {
    SortBy(EdgeList(vs, 0), YKey)
  }

  /** The largest `ymax` in the edge table. */
  function MaxYmax(et: seq<Edge>): (m: int)
    requires |et| > 0
    ensures forall e :: e in et ==> e.ymax <= m
    ensures exists e :: e in et && e.ymax == m
  {
    if |et| == 1 then et[0].ymax
    else
      var m := MaxYmax(et[1..]);
      assert forall e :: e in et[1..] ==> e in et;
      if et[0].ymax >= m then et[0].ymax else m
  }

  /** The table entries from `idx` on that start on row `y` join the active
      list, in table order. */
  function Admit(et: seq<Edge>, y: int, idx: nat, ael: seq<Edge>): (r: (nat, seq<Edge>))
    requires idx <= |et|
    ensures idx <= r.0 <= |et|
    ensures r.1 == ael + et[idx..r.0]
    ensures forall k :: idx <= k < r.0 ==> et[k].ymin == y
    ensures r.0 < |et| ==> et[r.0].ymin != y
    decreases |et| - idx
  {
    if idx < |et| && et[idx].ymin == y then
      var r := Admit(et, y, idx + 1, ael + [et[idx]]);
      assert et[idx..r.0] == [et[idx]] + et[idx + 1..r.0];
      r
    else (idx, ael)
  }

  /** `edge["ymax"] > y`: the edge still reaches above row `y`. */
  function Live(y: int): Edge -> bool
  {
    (e: Edge) => e.ymax > y
  }

  /** `edge["x"] += edge["inv_slope"]`. */
  function Advance(e: Edge): Edge
  {
    e.(x := e.x + e.invSlope)
  }

  /** The active list row `y` draws from: admitted, filtered, sorted by x. */
  function ActiveRow(et: seq<Edge>, y: int, idx: nat, ael: seq<Edge>): seq<Edge>
    requires idx <= |et|
  {
    SortBy(Filter(Live(y), Admit(et, y, idx, ael).1), XKey)
  }

  /** `debug_fill_active_edge_list` from row `y` below `hi`: one frame per
      row, drawn from the active list, whose entries then advance one row. */
  function ActiveRows(et: seq<Edge>, y: int, hi: int, idx: nat, ael: seq<Edge>): seq<seq<Span>>
    requires idx <= |et|
    decreases hi - y
  {
    if y >= hi then []
    else
      var active := ActiveRow(et, y, idx, ael);
      [PairSpans(Map(EdgeX, active), y)]
        + ActiveRows(et, y + 1, hi, Admit(et, y, idx, ael).0, Map(Advance, active))
  }

  /** `debug_fill_active_edge_list`: nothing for an empty edge table,
      otherwise one frame per row from the lowest `ymin` up to, but not
      including, the highest `ymax`. */
  function ActiveFrames(vs: seq<Point>): seq<seq<Span>>
  {
    var et := EdgeTable(vs);
    if |et| == 0 then [] else ActiveRows(et, et[0].ymin, MaxYmax(et), 0, [])
  }

  /** Sorting by x leaves the x values ascending. */
  lemma SortedXAscending(es: seq<Edge>)
    requires SortedBy(es, XKey)
    ensures Ascending(Map(EdgeX, es))
  {
    forall i, j | 0 <= i < j < |es|
      ensures Map(EdgeX, es)[i] <= Map(EdgeX, es)[j]
    {
      assert KeyLe(XKey(es[i]), XKey(es[j]));
    }
  }

  /** The active list of a row holds only edges reaching above it, and the
      row's spans run left to right without overlapping. */
  lemma ActiveRowShape(et: seq<Edge>, y: int, idx: nat, ael: seq<Edge>)
    requires idx <= |et|
    ensures forall e :: e in ActiveRow(et, y, idx, ael) ==> e.ymax > y
    ensures var r := PairSpans(Map(EdgeX, ActiveRow(et, y, idx, ael)), y);
      && |r| == |ActiveRow(et, y, idx, ael)| / 2
      && (forall i :: 0 <= i < |r| ==> r[i].y == y && r[i].xStart <= r[i].xEnd)
      && (forall i :: 0 <= i < |r| - 1 ==> r[i].xEnd <= r[i + 1].xStart)
  {
    var active := ActiveRow(et, y, idx, ael);
    var live := Filter(Live(y), Admit(et, y, idx, ael).1);
    SortByPerm(live, XKey);
    SortBySorted(live, XKey);
    forall e | e in active
      ensures e.ymax > y
    {
      assert e in multiset(live);
      var k :| 0 <= k < |live| && live[k] == e;
    }
    SortedXAscending(active);
    PairSpansShape(Map(EdgeX, active), y);
  }

  /** The list row `y` hands on is the admitted edges that reach above `y`,
      each advanced one row, and nothing else. */
  lemma ActiveAdvance(et: seq<Edge>, y: int, idx: nat, ael: seq<Edge>)
    requires idx <= |et|
    ensures var r := Admit(et, y, idx, ael);
      multiset(Map(Advance, ActiveRow(et, y, idx, ael))) == multiset(Map(Advance, Filter(Live(y), ael + et[idx..r.0])))
    ensures forall e :: e in Map(Advance, ActiveRow(et, y, idx, ael)) ==> e.ymax > y
  {
    var live := Filter(Live(y), Admit(et, y, idx, ael).1);
    var active := ActiveRow(et, y, idx, ael);
    SortByPerm(live, XKey);
    MapPerm(Advance, active, live);
    ActiveRowShape(et, y, idx, ael);
    var moved := Map(Advance, active);
    forall e | e in moved
      ensures e.ymax > y
    {
      var k :| 0 <= k < |moved| && moved[k] == e;
      assert active[k] in active;
    }
  }

  /** A polygon has no edge-table entry exactly when all its vertices share
      one height; its active edge list fill then draws nothing. */
  lemma EdgeListFlat(vs: seq<Point>)
    requires vs != []
    ensures EdgeList(vs, 0) == [] <==> forall i :: 0 <= i < |vs| ==> vs[i].y == vs[0].y
    ensures EdgeList(vs, 0) == [] ==> ActiveFrames(vs) == []
  {
    FlatEdgeList(vs, 0);
    if EdgeList(vs, 0) == [] {
      EdgeListFlatFrom(vs, 0);
      FlatChain(vs);
    }
  }

  /** Edges that are all horizontal keep every vertex at the first one's height. */
  lemma FlatChain(vs: seq<Point>)
    requires vs != []
    requires forall j {:trigger EdgeEnd(vs, j)} :: 0 <= j < |vs| ==> vs[j].y == EdgeEnd(vs, j).y
    ensures forall i :: 0 <= i < |vs| ==> vs[i].y == vs[0].y
  {
    forall i | 0 <= i < |vs|
      ensures vs[i].y == vs[0].y
    {
      FlatPrefix(vs, i);
    }
  }

  lemma {:induction false} FlatPrefix(vs: seq<Point>, i: nat)
    requires i < |vs|
    requires forall j {:trigger EdgeEnd(vs, j)} :: 0 <= j < |vs| ==> vs[j].y == EdgeEnd(vs, j).y
    ensures vs[i].y == vs[0].y
  {
    if i > 0 {
      FlatPrefix(vs, i - 1);
      var n := |vs|;
      assert i % n == i;
      assert EdgeEnd(vs, i - 1) == vs[i];
    }
  }

  lemma {:induction false} EdgeListFlatFrom(vs: seq<Point>, i: nat)
    requires i <= |vs| && EdgeList(vs, i) == []
    ensures forall j {:trigger EdgeEnd(vs, j)} :: i <= j < |vs| ==> vs[j].y == EdgeEnd(vs, j).y
    decreases |vs| - i
  {
    if i < |vs| {
      assert EdgeList(vs, i + 1) == [];
      EdgeListFlatFrom(vs, i + 1);
    }
  }

  lemma {:induction false} FlatEdgeList(vs: seq<Point>, i: nat)
    requires vs != [] && i <= |vs|
    ensures (forall j :: 0 <= j < |vs| ==> vs[j].y == vs[0].y) ==> EdgeList(vs, i) == []
    decreases |vs| - i
  {
    if i < |vs| {
      FlatEdgeList(vs, i + 1);
    }
  }

  /** The entries from edge `i` on are exactly those of the non-horizontal
      edges among them, at most one per edge. */
  lemma {:induction false} EdgeListMembers(vs: seq<Point>, i: nat)
    requires i <= |vs|
    ensures |EdgeList(vs, i)| <= |vs| - i
    ensures forall e :: e in EdgeList(vs, i) <==>
              exists j :: i <= j < |vs| && vs[j].y != EdgeEnd(vs, j).y && e == MakeEdge(vs[j], EdgeEnd(vs, j))
    decreases |vs| - i
  {
    if i < |vs| {
      EdgeListMembers(vs, i + 1);
      var a, b := vs[i], EdgeEnd(vs, i);
      var head := if a.y == b.y then [] else [MakeEdge(a, b)];
      assert EdgeList(vs, i) == head + EdgeList(vs, i + 1);
      forall e | e in EdgeList(vs, i)
        ensures exists j :: i <= j < |vs| && vs[j].y != EdgeEnd(vs, j).y && e == MakeEdge(vs[j], EdgeEnd(vs, j))
      {
        if e in head {
          assert vs[i].y != EdgeEnd(vs, i).y && e == MakeEdge(vs[i], EdgeEnd(vs, i));
        } else {
          assert e in EdgeList(vs, i + 1);
        }
      }
      forall e | exists j :: i <= j < |vs| && vs[j].y != EdgeEnd(vs, j).y && e == MakeEdge(vs[j], EdgeEnd(vs, j))
        ensures e in EdgeList(vs, i)
      {
        var j :| i <= j < |vs| && vs[j].y != EdgeEnd(vs, j).y && e == MakeEdge(vs[j], EdgeEnd(vs, j));
        if j == i {
          assert e in head;
        } else {
          assert e in EdgeList(vs, i + 1);
        }
      }
    }
  }

  /** An edge whose two ends truncate to the same row gets `ymin == ymax`:
      it is never live on the row it is admitted on, so it draws nothing. */
  lemma ShortEdgeNeverLive()
    ensures var e := MakeEdge(Point(0.0, 0.2), Point(1.0, 0.7));
            e.ymin == e.ymax == 0 && !Live(e.ymin)(e)
  {
  }

  /** The edge-table loop of `fill_polygon_active_edge_list`: one entry per
      non-horizontal edge, in edge order, none for a horizontal one. */
  method BuildEdgeList(vs: seq<Point>) returns (et: seq<Edge>)
    ensures et == EdgeList(vs, 0)
    ensures |et| <= |vs|
    ensures forall e :: e in et ==> e.ymin <= e.ymax
    ensures forall e :: e in et <==>
              exists j :: 0 <= j < |vs| && vs[j].y != EdgeEnd(vs, j).y && e == MakeEdge(vs[j], EdgeEnd(vs, j))
  {
    et := CollectEdges(vs);
    EdgeListMembers(vs, 0);
  }

  /** The loop over the edges that builds the table, entry by entry. */
  method CollectEdges(vs: seq<Point>) returns (et: seq<Edge>)
    ensures et == EdgeList(vs, 0)
  {
    et := [];
    var n := |vs|;
    var i := 0;
    while i < n
      invariant 0 <= i <= n
      invariant et + EdgeList(vs, i) == EdgeList(vs, 0)
    {
      var a, b := vs[i], vs[(i + 1) % n];
      if a.y != b.y {
        et := et + [MakeEdge(a, b)];
      }
      i := i + 1;
    }
  }

  /** One row of `fill_polygon_active_edge_list`: admit, drop finished
      edges, sort by x, pair up, advance. */
  method ActiveStep(et: seq<Edge>, y: int, idx0: nat, ael0: seq<Edge>)
    returns (row: seq<Span>, idx: nat, ael: seq<Edge>)
    requires idx0 <= |et|
    ensures idx == Admit(et, y, idx0, ael0).0
    ensures row == PairSpans(Map(EdgeX, ActiveRow(et, y, idx0, ael0)), y)
    ensures ael == Map(Advance, ActiveRow(et, y, idx0, ael0))
    ensures forall k :: idx0 <= k < idx ==> et[k].ymin == y
    ensures idx < |et| ==> et[idx].ymin != y
    ensures multiset(ael) == multiset(Map(Advance, Filter(Live(y), Admit(et, y, idx0, ael0).1)))
    ensures forall i :: 0 <= i < |ael| ==> ael[i].ymax > y
    ensures |row| == |ael| / 2
    ensures forall i :: 0 <= i < |row| ==> row[i].y == y && row[i].xStart <= row[i].xEnd
    ensures forall i :: 0 <= i < |row| - 1 ==> row[i].xEnd <= row[i + 1].xStart
  {
    idx, ael := idx0, ael0;
    while idx < |et| && et[idx].ymin == y
      invariant idx0 <= idx <= |et|
      invariant Admit(et, y, idx, ael) == Admit(et, y, idx0, ael0)
    {
      ael := ael + [et[idx]];
      idx := idx + 1;
    }
    ael := Filter(Live(y), ael);
    ael := SortBy(ael, XKey);
    row := PairSpans(Map(EdgeX, ael), y);
    ael := Map(Advance, ael);
    ActiveRowShape(et, y, idx0, ael0);
    ActiveAdvance(et, y, idx0, ael0);
  }

  /** One turn of the active edge list's row loop appends row `y`'s spans
      and leaves the rows after it. */
  lemma ActiveRowsStep(et: seq<Edge>, y: int, hi: int, idx: nat, ael: seq<Edge>,
                       row: seq<Span>, idx': nat, ael': seq<Edge>)
    requires idx <= |et| && y < hi
    requires row == PairSpans(Map(EdgeX, ActiveRow(et, y, idx, ael)), y)
    requires idx' == Admit(et, y, idx, ael).0
    requires ael' == Map(Advance, ActiveRow(et, y, idx, ael))
    ensures ActiveRows(et, y, hi, idx, ael) == [row] + ActiveRows(et, y + 1, hi, idx', ael')
  {
  }

  /** A row of the loop together with what it leaves for the next rows. */
  method ActiveTurn(et: seq<Edge>, y: int, hi: int, idx0: nat, ael0: seq<Edge>)
    returns (row: seq<Span>, idx: nat, ael: seq<Edge>)
    requires idx0 <= |et| && y < hi
    ensures idx <= |et|
    ensures ActiveRows(et, y, hi, idx0, ael0) == [row] + ActiveRows(et, y + 1, hi, idx, ael)
  {
    row, idx, ael := ActiveStep(et, y, idx0, ael0);
    ActiveRowsStep(et, y, hi, idx0, ael0, row, idx, ael);
  }

  /** The row loop of `fill_polygon_active_edge_list`, from `minY` below
      `maxY`, starting with an empty active list. */
  method ActiveLoop(et: seq<Edge>, minY: int, maxY: int) returns (spans: seq<Span>)
    ensures spans == Flatten(ActiveRows(et, minY, maxY, 0, []))
  {
    spans := [];
    var ael: seq<Edge> := [];
    var idx: nat := 0;
    var y := minY;
    ghost var total := Flatten(ActiveRows(et, minY, maxY, 0, []));
    while y < maxY
      invariant idx <= |et|
      invariant spans + Flatten(ActiveRows(et, y, maxY, idx, ael)) == total
      decreases maxY - y
    {
      var row, idx', ael' := ActiveTurn(et, y, maxY, idx, ael);
      FlattenStep(spans, row, ActiveRows(et, y, maxY, idx, ael), ActiveRows(et, y + 1, maxY, idx', ael'), total);
      spans := spans + row;
      idx, ael := idx', ael';
      y := y + 1;
    }
  }

  /** `fill_polygon_active_edge_list`: the spans it draws are those of the
      debug twin's frames, in order. */
  method ActiveEdgeFill(vs: seq<Point>) returns (spans: seq<Span>)
    ensures spans == Flatten(ActiveFrames(vs))
  {
    var et := BuildEdgeList(vs);
    et := SortBy(et, YKey);
    if |et| == 0 {
      return [];
    }
    spans := ActiveLoop(et, et[0].ymin, MaxYmax(et));
  }
}
