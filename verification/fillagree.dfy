/** The two scanline fills agree: when every vertex lies on a whole row, the
    active edge list draws exactly the spans of the ordered edge list. The
    active list tracks each edge's crossing incrementally, starting from its
    lower vertex on row `int(ymin)`; the ordered fill recomputes every
    crossing from the line equation. */
module FillAgreement {
  import opened Scalar
  import opened Geometry
  import opened Sorting
  import opened Seqs
  import opened ScanFill

  /** Every vertex lies on a whole row. */
  predicate WholeRows(vs: seq<Point>)
  {
    forall i :: 0 <= i < |vs| ==> vs[i].y == vs[i].y.Floor as real
  }

  /** The entry as it stands on row `y`: `x` advanced `y - ymin` times. */
  function AtRow(y: int): Edge -> Edge
  {
    (e: Edge) => e.(x := e.x + (y - e.ymin) as real * e.invSlope)
  }

  /** The edge covers row `y`: `ymin <= y < ymax`. */
  function Covers(y: int): Edge -> bool
  {
    (e: Edge) => e.ymin <= y < e.ymax
  }

  lemma TruncWhole(v: real)
    requires v == v.Floor as real
    ensures Trunc(v) as real == v
  {
    if v < 0.0 {
      var k := v.Floor;
      assert -v == (-k) as real;
      assert (-v).Floor == -k;
    }
  }

  /** Both orientations of an edge give the same slope. */
  lemma SlopeProduct(t: real, u: real, d: real, u': real, d': real)
    requires d != 0.0 && d' == -d && u' == -u
    ensures t * (u / d) == t * u' / d'
  {
    var s := u / d;
    assert s * d == u;
    assert s * d' == u';
    assert t * s * d' == t * u';
  }

  /** For a whole-row edge, the entry covers row `y` exactly when the ordered
      fill meets the edge on that row, and advancing it to the row lands on
      the ordered fill's crossing. */
  lemma EdgeAtRow(a: Point, b: Point, y: int)
    requires a.y != b.y
    requires a.y == a.y.Floor as real && b.y == b.y.Floor as real
    ensures Covers(y)(MakeEdge(a, b)) <==> MeetsRow(a, b, y)
    ensures MeetsRow(a, b, y) ==> AtRow(y)(MakeEdge(a, b)).x == RowX(a, b, y)
  {
    EdgeCovers(a, b, y);
    EdgeRowX(a, b, y);
  }

  lemma EdgeCovers(a: Point, b: Point, y: int)
    requires a.y != b.y
    requires a.y == a.y.Floor as real && b.y == b.y.Floor as real
    ensures Covers(y)(MakeEdge(a, b)) <==> MeetsRow(a, b, y)
  {
    TruncWhole(a.y);
    TruncWhole(b.y);
  }

  lemma EdgeRowX(a: Point, b: Point, y: int)
    requires a.y != b.y
    requires a.y == a.y.Floor as real && b.y == b.y.Floor as real
    ensures AtRow(y)(MakeEdge(a, b)).x == RowX(a, b, y)
  {
    var e := MakeEdge(a, b);
    var t := (y - e.ymin) as real;
    assert AtRow(y)(e).x == e.x + t * e.invSlope;
    if a.y < b.y {
      TruncWhole(a.y);
      UpLine(e.x, t, e.invSlope, a, b, y);
    } else {
      TruncWhole(b.y);
      DownLine(e.x, t, e.invSlope, a, b, y);
    }
  }

  /** Stepping from the lower vertex `a` along the slope reaches the line's
      crossing. */
  lemma UpLine(x0: real, t: real, s: real, a: Point, b: Point, y: int)
    requires a.y < b.y && x0 == a.x && t == y as real - a.y && s == (b.x - a.x) / (b.y - a.y)
    ensures x0 + t * s == RowX(a, b, y)
  {
  }

  /** Stepping from the lower vertex `b` along the slope reaches the line's
      crossing. */
  lemma DownLine(x0: real, t: real, s: real, a: Point, b: Point, y: int)
    requires b.y < a.y && x0 == b.x && t == y as real - b.y && s == (a.x - b.x) / (a.y - b.y)
    ensures x0 + t * s == RowX(a, b, y)
  {
    var d := a.y - b.y;
    var u := y as real - a.y;
    assert s * d == a.x - b.x;
    assert t * s == u * s + (a.x - b.x);
    SlopeProduct(u, a.x - b.x, d, b.x - a.x, b.y - a.y);
  }

  /** The crossings of the entries covering row `y`, at that row. */
  function RowXs(y: int, es: seq<Edge>): seq<real>
  {
    Map(EdgeX, Map(AtRow(y), Filter(Covers(y), es)))
  }

  lemma RowXsConcat(y: int, a: seq<Edge>, b: seq<Edge>)
    ensures RowXs(y, a + b) == RowXs(y, a) + RowXs(y, b)
  {
    FilterConcat(Covers(y), a, b);
    MapConcat(AtRow(y), Filter(Covers(y), a), Filter(Covers(y), b));
    MapConcat(EdgeX, Map(AtRow(y), Filter(Covers(y), a)), Map(AtRow(y), Filter(Covers(y), b)));
  }

  /** Reading the edge table at row `y` gives the crossings the ordered fill
      computes for that row, in the same (edge) order. */
  lemma {:induction false} EdgeListCrossings(vs: seq<Point>, y: int, i: nat)
    requires WholeRows(vs)
    requires i <= |vs|
    ensures RowXs(y, EdgeList(vs, i)) == RowCrossings(vs, y, i)
    decreases |vs| - i
  {
    if i < |vs| {
      var a, b := vs[i], EdgeEnd(vs, i);
      var head: seq<Edge> := if a.y == b.y then [] else [MakeEdge(a, b)];
      assert EdgeList(vs, i) == head + EdgeList(vs, i + 1);
      RowXsConcat(y, head, EdgeList(vs, i + 1));
      EdgeListCrossings(vs, y, i + 1);
      if a.y != b.y {
        EdgeAtRow(a, b, y);
        assert Filter(Covers(y), head) == (if MeetsRow(a, b, y) then head else []) by {
          assert head[1..] == [];
        }
      }
    }
  }

  /** The state on entry to row `y`: the table is sorted by `ymin`, the
      entries before `idx` are those starting below `y`, and the active list
      holds, in some order, the admitted entries still alive after row `y - 1`,
      each advanced to row `y`. */
  ghost predicate AelInv(et: seq<Edge>, y: int, idx: nat, ael: seq<Edge>)
  {
    && SortedBy(et, YKey)
    && idx <= |et|
    && (forall k :: 0 <= k < idx ==> et[k].ymin < y)
    && (forall k :: idx <= k < |et| ==> y <= et[k].ymin)
    && (forall k :: 0 <= k < |et| ==> et[k].ymin <= et[k].ymax)
    && multiset(ael) == multiset(Map(AtRow(y), Filter(Live(y - 1), et[..idx])))
  }

  /** Entries starting on the row they are placed at are already there. */
  lemma AtOwnRow(y: int, es: seq<Edge>)
    requires forall i :: 0 <= i < |es| ==> es[i].ymin == y
    ensures Map(AtRow(y), es) == es
  {
    forall i | 0 <= i < |es|
      ensures Map(AtRow(y), es)[i] == es[i]
    {
      EdgeAtOwnRow(y, es[i]);
    }
  }

  /** An entry starting on row `y` stands at its own x on that row. */
  lemma EdgeAtOwnRow(y: int, e: Edge)
    requires e.ymin == y
    ensures AtRow(y)(e) == e
  {
    var k := (y - e.ymin) as real;
    assert k == 0.0;
    assert k * e.invSlope == 0.0;
  }

  /** Admission stops at the first entry starting above row `y`; in the
      sorted table every later entry starts above it too. */
  lemma AdmitBounds(et: seq<Edge>, y: int, idx: nat, ael: seq<Edge>)
    requires AelInv(et, y, idx, ael)
    ensures var idx' := Admit(et, y, idx, ael).0;
      && (forall k :: 0 <= k < idx' ==> et[k].ymin <= y)
      && (forall k :: idx' <= k < |et| ==> y < et[k].ymin)
  {
    var idx' := Admit(et, y, idx, ael).0;
    forall k | idx' <= k < |et|
      ensures y < et[k].ymin
    {
      assert KeyLe(YKey(et[idx']), YKey(et[k])) || k == idx';
    }
  }

  /** Appending the entries `idx` up to `idx'`, all starting on row `y`,
      extends the active list's contents to the longer prefix. */
  lemma AdmitMultiset(et: seq<Edge>, y: int, idx: nat, idx': nat, ael: seq<Edge>, admitted: seq<Edge>)
    requires idx <= idx' <= |et|
    requires admitted == ael + et[idx..idx']
    requires forall k :: idx <= k < idx' ==> et[k].ymin == y <= et[k].ymax
    requires multiset(ael) == multiset(Map(AtRow(y), Filter(Live(y - 1), et[..idx])))
    ensures multiset(admitted) == multiset(Map(AtRow(y), Filter(Live(y - 1), et[..idx'])))
  {
    AdmitSeq(et, y, idx, idx');
    MultisetJoin(ael, Map(AtRow(y), Filter(Live(y - 1), et[..idx])), et[idx..idx']);
  }

  /** The entries admitted on their own row join the live entries unchanged. */
  lemma AdmitSeq(et: seq<Edge>, y: int, idx: nat, idx': nat)
    requires idx <= idx' <= |et|
    requires forall k :: idx <= k < idx' ==> et[k].ymin == y <= et[k].ymax
    ensures Map(AtRow(y), Filter(Live(y - 1), et[..idx']))
            == Map(AtRow(y), Filter(Live(y - 1), et[..idx])) + et[idx..idx']
  {
    var joined, pre := et[idx..idx'], Filter(Live(y - 1), et[..idx]);
    assert et[..idx'] == et[..idx] + joined;
    FilterConcat(Live(y - 1), et[..idx], joined);
    FilterAll(Live(y - 1), joined);
    MapConcat(AtRow(y), pre, joined);
    AtOwnRow(y, joined);
  }


  /** Admitting the entries that start on row `y` extends the invariant's
      prefix to every entry starting at or below `y`. */
  lemma AdmitStep(et: seq<Edge>, y: int, idx: nat, ael: seq<Edge>)
    requires AelInv(et, y, idx, ael)
    ensures var (idx', admitted) := Admit(et, y, idx, ael);
      && (forall k :: 0 <= k < idx' ==> et[k].ymin <= y)
      && (forall k :: idx' <= k < |et| ==> y < et[k].ymin)
      && multiset(admitted) == multiset(Map(AtRow(y), Filter(Live(y - 1), et[..idx'])))
  {
    AdmitBounds(et, y, idx, ael);
    var (idx', admitted) := Admit(et, y, idx, ael);
    AdmitMultiset(et, y, idx, idx', ael, admitted);
  }

  /** Advancing an entry that stands on row `y` puts it on row `y + 1`. */
  lemma AdvanceAtRow(y: int, es: seq<Edge>)
    ensures Map(Advance, Map(AtRow(y), es)) == Map(AtRow(y + 1), es)
  {
    forall i | 0 <= i < |es|
      ensures Map(Advance, Map(AtRow(y), es))[i] == Map(AtRow(y + 1), es)[i]
    {
      EdgeAdvance(y, es[i]);
    }
  }

  /** One entry advanced from row `y` stands where it meets row `y + 1`. */
  lemma EdgeAdvance(y: int, e: Edge)
    ensures Advance(AtRow(y)(e)) == AtRow(y + 1)(e)
  {
    var k := (y - e.ymin) as real;
    assert (y + 1 - e.ymin) as real * e.invSlope == k * e.invSlope + e.invSlope;
  }

  /** The active list row `y` draws from holds, in some order, the entries
      starting at or below `y` and alive on it, advanced to the row. */
  lemma ActiveCurrent(et: seq<Edge>, y: int, idx: nat, ael: seq<Edge>)
    requires AelInv(et, y, idx, ael)
    ensures var idx' := Admit(et, y, idx, ael).0;
      multiset(ActiveRow(et, y, idx, ael)) == multiset(Map(AtRow(y), Filter(Live(y), et[..idx'])))
  {
    var (idx', admitted) := Admit(et, y, idx, ael);
    AdmitStep(et, y, idx, ael);
    var pre := et[..idx'];
    SortByPerm(Filter(Live(y), admitted), XKey);
    FilterPerm(Live(y), admitted, Map(AtRow(y), Filter(Live(y - 1), pre)));
    FilterMap(Live(y), AtRow(y), Live(y), Filter(Live(y - 1), pre));
    FilterFilter(Live(y), Live(y - 1), pre);
  }

  /** The entries alive on row `y` among those starting at or below it are
      exactly the entries covering the row. */
  lemma LiveCovers(et: seq<Edge>, y: int, idx': nat)
    requires idx' <= |et|
    requires forall k :: 0 <= k < idx' ==> et[k].ymin <= y
    requires forall k :: idx' <= k < |et| ==> y < et[k].ymin
    ensures Filter(Live(y), et[..idx']) == Filter(Covers(y), et)
  {
    var pre := et[..idx'];
    assert et == pre + et[idx'..];
    FilterConcat(Covers(y), pre, et[idx'..]);
    FilterNone(Covers(y), et[idx'..]);
    FilterSame(Live(y), Covers(y), pre);
  }

  /** One row of the active edge list: the invariant carries over to the
      next row. */
  lemma AelStep(et: seq<Edge>, y: int, idx: nat, ael: seq<Edge>)
    requires AelInv(et, y, idx, ael)
    ensures AelInv(et, y + 1, Admit(et, y, idx, ael).0, Map(Advance, ActiveRow(et, y, idx, ael)))
  {
    var idx' := Admit(et, y, idx, ael).0;
    AdmitStep(et, y, idx, ael);
    ActiveCurrent(et, y, idx, ael);
    var live := Filter(Live(y), et[..idx']);
    MapPerm(Advance, ActiveRow(et, y, idx, ael), Map(AtRow(y), live));
    AdvanceAtRow(y, live);
    assert live == Filter(Live(y + 1 - 1), et[..idx']);
  }

  /** The x values row `y` pairs up are, in some order, the crossings of the
      table's entries covering the row. */
  lemma AelRowCrossings(et: seq<Edge>, y: int, idx: nat, ael: seq<Edge>)
    requires AelInv(et, y, idx, ael)
    ensures multiset(Map(EdgeX, ActiveRow(et, y, idx, ael))) == multiset(RowXs(y, et))
  {
    var idx' := Admit(et, y, idx, ael).0;
    AdmitStep(et, y, idx, ael);
    ActiveCurrent(et, y, idx, ael);
    LiveCovers(et, y, idx');
    MapPerm(EdgeX, ActiveRow(et, y, idx, ael), Map(AtRow(y), Filter(Live(y), et[..idx'])));
  }

  /** Row `y` of the active edge list draws the ordered fill's row `y`. */
  lemma AelRowAgrees(vs: seq<Point>, et: seq<Edge>, y: int, idx: nat, ael: seq<Edge>)
    requires WholeRows(vs)
    requires multiset(et) == multiset(EdgeList(vs, 0))
    requires AelInv(et, y, idx, ael)
    ensures PairSpans(Map(EdgeX, ActiveRow(et, y, idx, ael)), y) == OrderedRow(vs, y)
  {
    var xs := Map(EdgeX, ActiveRow(et, y, idx, ael));
    AelRowCrossings(et, y, idx, ael);
    FilterPerm(Covers(y), et, EdgeList(vs, 0));
    MapPerm(AtRow(y), Filter(Covers(y), et), Filter(Covers(y), EdgeList(vs, 0)));
    MapPerm(EdgeX, Map(AtRow(y), Filter(Covers(y), et)), Map(AtRow(y), Filter(Covers(y), EdgeList(vs, 0))));
    EdgeListCrossings(vs, y, 0);
    SortBySorted(Filter(Live(y), Admit(et, y, idx, ael).1), XKey);
    SortedXAscending(ActiveRow(et, y, idx, ael));
    SortRealsAscending(RowCrossings(vs, y, 0));
    AscendingUnique(xs, SortReals(RowCrossings(vs, y, 0)));
  }

  /** From any row on which the invariant holds, the active edge list draws
      the ordered fill's rows, one frame per row. */
  lemma {:induction false} AelRowsAgree(vs: seq<Point>, et: seq<Edge>, y: int, hi: int, idx: nat, ael: seq<Edge>)
    requires WholeRows(vs)
    requires multiset(et) == multiset(EdgeList(vs, 0))
    requires AelInv(et, y, idx, ael)
    ensures ActiveRows(et, y, hi, idx, ael) == OrderedRows(vs, y, hi - 1)
    decreases hi - y
  {
    if y < hi {
      AelRowAgrees(vs, et, y, idx, ael);
      AelStep(et, y, idx, ael);
      AelRowsAgree(vs, et, y + 1, hi, Admit(et, y, idx, ael).0, Map(Advance, ActiveRow(et, y, idx, ael)));
    }
  }

  /** Every entry of the edge table lies within the ordered fill's rows. */
  lemma {:induction false} EdgeListBounds(vs: seq<Point>, i: nat)
    requires vs != [] && i <= |vs|
    ensures forall e :: e in EdgeList(vs, i) ==>
      OrderedLow(vs) <= e.ymin && e.ymax <= OrderedHigh(vs)
    decreases |vs| - i
  {
    if i < |vs| {
      EdgeListBounds(vs, i + 1);
      var a, b := vs[i], EdgeEnd(vs, i);
      if a.y != b.y {
        TruncMonotone(MinY(vs), a.y);
        TruncMonotone(MinY(vs), b.y);
        TruncMonotone(a.y, MaxY(vs));
        TruncMonotone(b.y, MaxY(vs));
      }
    }
  }

  /** A row no entry covers has no crossings. */
  lemma QuietRow(vs: seq<Point>, y: int)
    requires WholeRows(vs)
    requires forall e :: e in EdgeList(vs, 0) ==> !Covers(y)(e)
    ensures OrderedRow(vs, y) == []
  {
    var el := EdgeList(vs, 0);
    assert forall i :: 0 <= i < |el| ==> el[i] in el;
    FilterNone(Covers(y), el);
    EdgeListCrossings(vs, y, 0);
  }

  lemma {:induction false} OrderedRowsSplit(vs: seq<Point>, a: int, m: int, b: int)
    requires a <= m <= b + 1
    ensures OrderedRows(vs, a, b) == OrderedRows(vs, a, m - 1) + OrderedRows(vs, m, b)
    decreases m - a
  {
    if a < m {
      OrderedRowsSplit(vs, a + 1, m, b);
    }
  }

  lemma {:induction false} QuietRows(vs: seq<Point>, a: int, b: int)
    requires forall y :: a <= y <= b ==> OrderedRow(vs, y) == []
    ensures Flatten(OrderedRows(vs, a, b)) == []
    decreases b - a
  {
    if a <= b {
      QuietRows(vs, a + 1, b);
    }
  }

  /** The table holds the same entries as the unsorted edge list. */
  lemma TableEntries(vs: seq<Point>)
    ensures forall e :: e in EdgeTable(vs) <==> e in EdgeList(vs, 0)
  {
    var el, et := EdgeList(vs, 0), EdgeTable(vs);
    SortByPerm(el, YKey);
    assert forall e :: e in et <==> e in multiset(et);
    assert forall e :: e in el <==> e in multiset(el);
  }

  /** On its first row the active edge list starts out right: empty, with
      every entry starting at or above that row. */
  lemma AelStart(vs: seq<Point>)
    requires |EdgeTable(vs)| > 0
    ensures AelInv(EdgeTable(vs), EdgeTable(vs)[0].ymin, 0, [])
    ensures forall e :: e in EdgeList(vs, 0) ==> EdgeTable(vs)[0].ymin <= e.ymin
  {
    var et := EdgeTable(vs);
    TableEntries(vs);
    SortBySorted(EdgeList(vs, 0), YKey);
    forall k | 0 <= k < |et|
      ensures et[0].ymin <= et[k].ymin <= et[k].ymax
    {
      assert et[k] in et;
      assert k == 0 || KeyLe(YKey(et[0]), YKey(et[k]));
    }
    forall e | e in EdgeList(vs, 0)
      ensures et[0].ymin <= e.ymin
    {
      assert e in et;
    }
    assert et[..0] == [];
  }

  /** A polygon with only horizontal edges: both fills draw nothing. */
  lemma FlatMatchesOrdered(vs: seq<Point>)
    requires vs != []
    requires WholeRows(vs)
    requires |EdgeTable(vs)| == 0
    ensures Flatten(OrderedFrames(vs)) == []
  {
    forall y | OrderedLow(vs) <= y <= OrderedHigh(vs)
      ensures OrderedRow(vs, y) == []
    {
      QuietRow(vs, y);
    }
    QuietRows(vs, OrderedLow(vs), OrderedHigh(vs));
  }

  /** Rows below every entry's start or at or above every entry's end draw
      nothing in the ordered fill. */
  lemma OuterRowsQuiet(vs: seq<Point>, lo: int, hi: int)
    requires vs != []
    requires WholeRows(vs)
    requires forall e :: e in EdgeList(vs, 0) ==> lo <= e.ymin && e.ymax <= hi
    ensures Flatten(OrderedRows(vs, OrderedLow(vs), lo - 1)) == []
    ensures Flatten(OrderedRows(vs, hi, OrderedHigh(vs))) == []
  {
    forall y | y <= lo - 1 || hi <= y
      ensures OrderedRow(vs, y) == []
    {
      OutsideQuiet(vs, lo, hi, y);
    }
    QuietRows(vs, OrderedLow(vs), lo - 1);
    QuietRows(vs, hi, OrderedHigh(vs));
  }

  /** A row outside the rows every edge lies within crosses no edge. */
  lemma OutsideQuiet(vs: seq<Point>, lo: int, hi: int, y: int)
    requires WholeRows(vs)
    requires forall e :: e in EdgeList(vs, 0) ==> lo <= e.ymin && e.ymax <= hi
    requires y < lo || hi <= y
    ensures OrderedRow(vs, y) == []
  {
    forall e | e in EdgeList(vs, 0)
      ensures !Covers(y)(e)
    {
    }
    QuietRow(vs, y);
  }

  /** With the outer rows quiet, the ordered fill draws just rows `lo` below
      `hi`. */
  lemma MiddleRows(vs: seq<Point>, lo: int, hi: int)
    requires vs != []
    requires OrderedLow(vs) <= lo <= hi <= OrderedHigh(vs)
    requires Flatten(OrderedRows(vs, OrderedLow(vs), lo - 1)) == []
    requires Flatten(OrderedRows(vs, hi, OrderedHigh(vs))) == []
    ensures Flatten(OrderedFrames(vs)) == Flatten(OrderedRows(vs, lo, hi - 1))
  {
    var lowest, highest := OrderedLow(vs), OrderedHigh(vs);
    OrderedRowsSplit(vs, lowest, lo, highest);
    OrderedRowsSplit(vs, lo, hi, highest);
    FlattenConcat(OrderedRows(vs, lowest, lo - 1), OrderedRows(vs, lo, highest));
    FlattenConcat(OrderedRows(vs, lo, hi - 1), OrderedRows(vs, hi, highest));
  }

  /** When every vertex lies on a whole row, `fill_polygon_active_edge_list`
      and `fill_polygon_ordered_edge_list` draw the same spans in the same
      order: the active list only skips rows on which the ordered fill
      finds no crossing. */
  lemma ActiveMatchesOrdered(vs: seq<Point>)
    requires vs != []
    requires WholeRows(vs)
    ensures Flatten(ActiveFrames(vs)) == Flatten(OrderedFrames(vs))
  {
    var el := EdgeList(vs, 0);
    var et := EdgeTable(vs);
    if |et| == 0 {
      FlatMatchesOrdered(vs);
    } else {
      var lo, hi := et[0].ymin, MaxYmax(et);
      EdgeListBounds(vs, 0);
      TableEntries(vs);
      AelStart(vs);
      SortByPerm(el, YKey);
      assert et[0] in el;
      AelRowsAgree(vs, et, lo, hi, 0, []);
      var e :| e in et && e.ymax == hi;
      OuterRowsQuiet(vs, lo, hi);
      MiddleRows(vs, lo, hi);
    }
  }
}
