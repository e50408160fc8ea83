/** The two seed fills of the polygon editor (lab6/logic.py): the 4-connected
    stack fill, which draws one pixel at a time, and the span fill, which
    draws the whole interior run through each pixel it takes off the stack.
    Both stop at pixels `point_in_polygon` rejects; what they draw is the
    4-connected interior region around the seed. */
module SeedFill {
  import opened Scalar
  import opened Geometry
  import opened Seqs
  import opened ScanFill

  /** An integer pixel `(x, y)`. */
  datatype Cell = Cell(x: int, y: int)

  /** `point_in_polygon((x, y), vertices)` for a pixel. */
  predicate Inside(vs: seq<Point>, c: Cell)
  {
    PointInPolygon(Point(c.x as real, c.y as real), vs)
  }

  /** The pixels differ by one step left, right, up or down. */
  predicate Adjacent(a: Cell, b: Cell)
  {
    (a.y == b.y && (a.x - b.x == 1 || b.x - a.x == 1))
    || (a.x == b.x && (a.y - b.y == 1 || b.y - a.y == 1))
  }

  /** A walk through interior pixels, one 4-step at a time. */
  ghost predicate IsPath(vs: seq<Point>, p: seq<Cell>)
  {
    && |p| > 0
    && (forall i :: 0 <= i < |p| ==> Inside(vs, p[i]))
    && (forall i :: 0 <= i < |p| - 1 ==> Adjacent(p[i], p[i + 1]))
  }

  /** `c` lies in the 4-connected interior region of `s`. */
  ghost predicate Connected(vs: seq<Point>, s: Cell, c: Cell)
  {
    exists p :: IsPath(vs, p) && p[0] == s && p[|p| - 1] == c
  }

  /** A set holding `s` and every interior neighbour of its members holds
      the whole region of `s`. */
  lemma ClosedRegion(vs: seq<Point>, region: iset<Cell>, s: Cell)
    requires s in region
    requires forall c, d :: c in region && Adjacent(c, d) && Inside(vs, d) ==> d in region
    ensures forall c :: Connected(vs, s, c) ==> c in region
  {
    forall c | Connected(vs, s, c)
      ensures c in region
    {
      var p :| IsPath(vs, p) && p[0] == s && p[|p| - 1] == c;
      PathInRegion(vs, region, p, |p| - 1);
    }
  }

  lemma {:induction false} PathInRegion(vs: seq<Point>, region: iset<Cell>, p: seq<Cell>, k: nat)
    requires IsPath(vs, p) && p[0] in region && k < |p|
    requires forall c, d :: c in region && Adjacent(c, d) && Inside(vs, d) ==> d in region
    ensures p[k] in region
  {
    if k > 0 {
      PathInRegion(vs, region, p, k - 1);
      assert Adjacent(p[k - 1], p[k]);
    }
  }

  /** Extending a walk to an adjacent interior pixel. */
  lemma ConnectedStep(vs: seq<Point>, s: Cell, c: Cell, d: Cell)
    requires Connected(vs, s, c) && Adjacent(c, d) && Inside(vs, d)
    ensures Connected(vs, s, d)
  {
    var p :| IsPath(vs, p) && p[0] == s && p[|p| - 1] == c;
    var q := p + [d];
    assert IsPath(vs, q);
  }

  lemma ConnectedSelf(vs: seq<Point>, s: Cell)
    requires Inside(vs, s)
    ensures Connected(vs, s, s)
  {
    assert IsPath(vs, [s]);
  }

  // ---------------------------------------------------------------------
  // The bounding box of the stack fill

  /** `min_x`, `max_x`, `min_y`, `max_y`: `int()` of the vertex extremes. */
  datatype Box = Box(minX: int, maxX: int, minY: int, maxY: int)

  predicate InBox(b: Box, c: Cell)
  {
    b.minX <= c.x <= b.maxX && b.minY <= c.y <= b.maxY
  }

  function BoxCells(b: Box): (cells: set<Cell>)
    ensures forall c :: c in cells <==> InBox(b, c)
  {
    var cells := set x, y | b.minX <= x <= b.maxX && b.minY <= y <= b.maxY :: Cell(x, y);
    assert forall c :: InBox(b, c) ==> c in cells by {
      forall c | InBox(b, c)
        ensures c in cells
      {
        assert c == Cell(c.x, c.y);
      }
    }
    cells
  }

  function BoundingBox(vs: seq<Point>): Box
    requires vs != []
  {
    Box(Trunc(MinX(vs)), Trunc(MaxX(vs)), Trunc(MinY(vs)), Trunc(MaxY(vs)))
  }

  /** An integer at or above `v` is at or above `int(v)`. */
  lemma TruncBelow(v: real, n: int)
    requires v <= n as real
    ensures Trunc(v) <= n
  {
    TruncMonotone(v, n as real);
  }

  /** An integer below `v` is at or below `int(v)`. */
  lemma TruncAbove(v: real, n: int)
    requires n as real < v
    ensures n <= Trunc(v)
  {
  }

  /** Interior pixels lie inside the bounding box. */
  lemma InsideInBox(vs: seq<Point>, c: Cell)
    requires Inside(vs, c)
    ensures vs != [] && InBox(BoundingBox(vs), c)
  {
    PointInPolygonInBox(Point(c.x as real, c.y as real), vs);
    TruncBelow(MinX(vs), c.x);
    TruncAbove(MaxX(vs), c.x);
    TruncBelow(MinY(vs), c.y);
    TruncAbove(MaxY(vs), c.y);
  }

  /** The neighbours the stack fill pushes, in push order: right, left, down,
      up, each only when inside the box. */
  function Neighbours(c: Cell, b: Box): (r: seq<Cell>)
    ensures forall n :: n in r ==> Adjacent(c, n)
    ensures InBox(b, c) ==> forall n :: n in r <==> Adjacent(c, n) && InBox(b, n)
  {
    (if c.x + 1 <= b.maxX then [Cell(c.x + 1, c.y)] else [])
    + (if c.x - 1 >= b.minX then [Cell(c.x - 1, c.y)] else [])
    + (if c.y + 1 <= b.maxY then [Cell(c.x, c.y + 1)] else [])
    + (if c.y - 1 >= b.minY then [Cell(c.x, c.y - 1)] else [])
  }

  // ---------------------------------------------------------------------
  // simple_seed_fill and debug_seed_fill

  /** The pixels the stack can ever hold: the box and the seed. */
  function Universe(vs: seq<Point>, seed: Cell): set<Cell>
    requires vs != []
  {
    BoxCells(BoundingBox(vs)) + {seed}
  }

  /** The one-pixel line `create_line(x, y, x+1, y)`. */
  function PixelRun(c: Cell): Span
  {
    Span(c.x, c.x + 1, c.y)
  }

  /** `debug_seed_fill` from a given stack and visited set: one frame per
      pixel drawn. */
  function SeedFrames(vs: seq<Point>, seed: Cell, stack: seq<Cell>, visited: set<Cell>): seq<seq<Span>>
    requires vs != []
    requires forall i :: 0 <= i < |stack| ==> stack[i] in Universe(vs, seed)
    decreases |Universe(vs, seed) - visited|, |stack|
  {
    if |stack| == 0 then []
    else
      var c, rest := stack[|stack| - 1], stack[..|stack| - 1];
      if c in visited then SeedFrames(vs, seed, rest, visited)
      else
        VisitShrinks(Universe(vs, seed), visited, c);
        if Inside(vs, c) then
          NeighboursInUniverse(vs, seed, c, rest);
          [[PixelRun(c)]] + SeedFrames(vs, seed, rest + Neighbours(c, BoundingBox(vs)), visited + {c})
        else SeedFrames(vs, seed, rest, visited + {c})
  }

  /** The neighbours pushed after drawing an interior pixel stay in the
      universe. */
  lemma NeighboursInUniverse(vs: seq<Point>, seed: Cell, c: Cell, rest: seq<Cell>)
    requires vs != [] && Inside(vs, c)
    requires forall i :: 0 <= i < |rest| ==> rest[i] in Universe(vs, seed)
    ensures var stack := rest + Neighbours(c, BoundingBox(vs));
            forall i :: 0 <= i < |stack| ==> stack[i] in Universe(vs, seed)
  {
    var pushed := Neighbours(c, BoundingBox(vs));
    var stack := rest + pushed;
    InsideInBox(vs, c);
    forall i | 0 <= i < |stack|
      ensures stack[i] in Universe(vs, seed)
    {
      if i >= |rest| {
        assert stack[i] == pushed[i - |rest|];
      }
    }
  }

  function SeedStart(seedPoint: Point): Cell
  {
    Cell(Trunc(seedPoint.x), Trunc(seedPoint.y))
  }

  /** Every neighbour `d` pushed has been visited or is still on the stack. */
  ghost predicate Accounted(vs: seq<Point>, d: Cell, stack: seq<Cell>, visited: set<Cell>)
    requires vs != []
  {
    forall n :: n in Neighbours(d, BoundingBox(vs)) ==> n in visited || n in stack
  }

  /** The pixels on the stack are in the box, or are the seed. */
  ghost predicate StackInUniverse(vs: seq<Point>, seed: Cell, stack: seq<Cell>)
    requires vs != []
  {
    forall i :: 0 <= i < |stack| ==> stack[i] in Universe(vs, seed)
  }

  /** The lines drawn are one pixel wide, pairwise distinct, and cover
      exactly the visited interior pixels. */
  ghost predicate DrawnOnce(vs: seq<Point>, visited: set<Cell>, spans: seq<Span>)
  {
    && (forall c :: PixelRun(c) in spans <==> c in visited && Inside(vs, c))
    && (forall i :: 0 <= i < |spans| ==> spans[i].xEnd == spans[i].xStart + 1)
    && (forall i, j :: 0 <= i < j < |spans| ==> spans[i] != spans[j])
  }

  /** Every visited interior pixel is in the seed's region, and every pixel
      on the stack is the seed or a neighbour of one of them. */
  ghost predicate Reached(vs: seq<Point>, seed: Cell, stack: seq<Cell>, visited: set<Cell>)
  {
    && (forall c :: c in visited && Inside(vs, c) ==> Connected(vs, seed, c))
    && (forall i :: 0 <= i < |stack| ==>
          (stack[i] == seed || exists d :: d in visited && Inside(vs, d) && Adjacent(d, stack[i])))
  }

  /** Nothing is lost: the seed and the neighbours of every visited interior
      pixel have been visited or are still on the stack. */
  ghost predicate Pending(vs: seq<Point>, seed: Cell, stack: seq<Cell>, visited: set<Cell>)
    requires vs != []
  {
    && (forall d :: d in visited && Inside(vs, d) ==> Accounted(vs, d, stack, visited))
    && (seed in visited || seed in stack)
  }

  /** What the stack fill has established after each pop. */
  ghost predicate SeedInv(vs: seq<Point>, seed: Cell, stack: seq<Cell>, visited: set<Cell>, spans: seq<Span>)
    requires vs != []
  {
    && StackInUniverse(vs, seed, stack)
    && DrawnOnce(vs, visited, spans)
    && Reached(vs, seed, stack, visited)
    && Pending(vs, seed, stack, visited)
  }

  /** Popping a pixel that was already visited keeps the invariant. */
  lemma SeedSkip(vs: seq<Point>, seed: Cell, stack: seq<Cell>, visited: set<Cell>, spans: seq<Span>)
    requires vs != [] && |stack| > 0
    requires SeedInv(vs, seed, stack, visited, spans)
    requires stack[|stack| - 1] in visited
    ensures SeedInv(vs, seed, stack[..|stack| - 1], visited, spans)
  {
    var c, rest := stack[|stack| - 1], stack[..|stack| - 1];
    forall i | 0 <= i < |rest|
      ensures rest[i] in Universe(vs, seed)
      ensures rest[i] == seed || exists d :: d in visited && Inside(vs, d) && Adjacent(d, rest[i])
    {
      assert rest[i] == stack[i];
    }
    forall d | d in visited && Inside(vs, d)
      ensures Accounted(vs, d, rest, visited)
    {
      PopAccounted(vs, d, stack, visited, visited);
    }
    if seed !in visited {
      InDropLast(stack, seed);
    }
  }

  /** Dropping a pixel that is now visited from the top of the stack keeps a
      pixel's neighbours accounted for. */
  lemma PopAccounted(vs: seq<Point>, d: Cell, stack: seq<Cell>, visited: set<Cell>, visited': set<Cell>)
    requires vs != [] && |stack| > 0 && stack[|stack| - 1] in visited' && visited <= visited'
    requires Accounted(vs, d, stack, visited)
    ensures Accounted(vs, d, stack[..|stack| - 1], visited')
  {
    forall n | n in Neighbours(d, BoundingBox(vs)) && n !in visited'
      ensures n in stack[..|stack| - 1]
    {
      InDropLast(stack, n);
    }
  }

  /** Popping an unvisited pixel outside the polygon keeps the invariant. */
  lemma SeedReject(vs: seq<Point>, seed: Cell, stack: seq<Cell>, visited: set<Cell>, spans: seq<Span>)
    requires vs != [] && |stack| > 0
    requires SeedInv(vs, seed, stack, visited, spans)
    requires stack[|stack| - 1] !in visited && !Inside(vs, stack[|stack| - 1])
    ensures SeedInv(vs, seed, stack[..|stack| - 1], visited + {stack[|stack| - 1]}, spans)
  {
    var c, rest := stack[|stack| - 1], stack[..|stack| - 1];
    var visited' := visited + {c};
    forall i | 0 <= i < |rest|
      ensures rest[i] in Universe(vs, seed)
      ensures rest[i] == seed || exists d :: d in visited' && Inside(vs, d) && Adjacent(d, rest[i])
    {
      assert rest[i] == stack[i];
    }
    forall d | d in visited' && Inside(vs, d)
      ensures Accounted(vs, d, rest, visited')
    {
      assert d in visited;
      PopAccounted(vs, d, stack, visited, visited');
    }
    RejectDrawn(vs, visited, spans, c);
    if seed !in visited' {
      InDropLast(stack, seed);
    }
  }

  /** Marking an exterior pixel visited draws nothing new. */
  lemma RejectDrawn(vs: seq<Point>, visited: set<Cell>, spans: seq<Span>, c: Cell)
    requires DrawnOnce(vs, visited, spans) && !Inside(vs, c)
    ensures DrawnOnce(vs, visited + {c}, spans)
  {
  }

  /** Drawing an unvisited interior pixel and pushing its neighbours keeps
      the invariant. */
  lemma SeedDraw(vs: seq<Point>, seed: Cell, stack: seq<Cell>, visited: set<Cell>, spans: seq<Span>)
    requires vs != [] && |stack| > 0
    requires SeedInv(vs, seed, stack, visited, spans)
    requires stack[|stack| - 1] !in visited && Inside(vs, stack[|stack| - 1])
    ensures var c := stack[|stack| - 1];
      SeedInv(vs, seed, stack[..|stack| - 1] + Neighbours(c, BoundingBox(vs)), visited + {c}, spans + [PixelRun(c)])
  {
    var c, rest := stack[|stack| - 1], stack[..|stack| - 1];
    assert stack == rest + [c];
    var stack' := rest + Neighbours(c, BoundingBox(vs));
    DrawUniverse(vs, seed, stack, c);
    DrawOnceMore(vs, visited, spans, c);
    DrawReached(vs, seed, stack, visited, c);
    DrawPending(vs, seed, stack, visited, c);
  }

  lemma DrawUniverse(vs: seq<Point>, seed: Cell, stack: seq<Cell>, c: Cell)
    requires vs != [] && |stack| > 0 && c == stack[|stack| - 1] && Inside(vs, c)
    requires StackInUniverse(vs, seed, stack)
    ensures StackInUniverse(vs, seed, stack[..|stack| - 1] + Neighbours(c, BoundingBox(vs)))
  {
    InsideInBox(vs, c);
  }

  lemma DrawOnceMore(vs: seq<Point>, visited: set<Cell>, spans: seq<Span>, c: Cell)
    requires DrawnOnce(vs, visited, spans) && c !in visited && Inside(vs, c)
    ensures DrawnOnce(vs, visited + {c}, spans + [PixelRun(c)])
  {
    var spans' := spans + [PixelRun(c)];
    forall c' | PixelRun(c') in spans'
      ensures c' in visited + {c} && Inside(vs, c')
    {
      if PixelRun(c') != PixelRun(c) {
        assert PixelRun(c') in spans;
      }
    }
  }

  lemma DrawReached(vs: seq<Point>, seed: Cell, stack: seq<Cell>, visited: set<Cell>, c: Cell)
    requires vs != [] && |stack| > 0 && c == stack[|stack| - 1] && Inside(vs, c)
    requires Reached(vs, seed, stack, visited)
    ensures Reached(vs, seed, stack[..|stack| - 1] + Neighbours(c, BoundingBox(vs)), visited + {c})
  {
    var rest := stack[..|stack| - 1];
    var stack', visited' := rest + Neighbours(c, BoundingBox(vs)), visited + {c};
    assert Connected(vs, seed, c) by {
      if c == seed {
        ConnectedSelf(vs, seed);
      } else {
        var d :| d in visited && Inside(vs, d) && Adjacent(d, c);
        ConnectedStep(vs, seed, d, c);
      }
    }
    forall i | 0 <= i < |stack'|
      ensures stack'[i] == seed || exists d :: d in visited' && Inside(vs, d) && Adjacent(d, stack'[i])
    {
      if i >= |rest| {
        assert stack'[i] in Neighbours(c, BoundingBox(vs));
        assert Adjacent(c, stack'[i]);
      } else {
        assert stack'[i] == stack[i];
      }
    }
  }

  lemma DrawPending(vs: seq<Point>, seed: Cell, stack: seq<Cell>, visited: set<Cell>, c: Cell)
    requires vs != [] && |stack| > 0 && c == stack[|stack| - 1]
    requires Pending(vs, seed, stack, visited)
    ensures Pending(vs, seed, stack[..|stack| - 1] + Neighbours(c, BoundingBox(vs)), visited + {c})
  {
    var rest := stack[..|stack| - 1];
    var stack', visited' := rest + Neighbours(c, BoundingBox(vs)), visited + {c};
    assert stack == rest + [c];
    forall d | d in visited' && Inside(vs, d)
      ensures Accounted(vs, d, stack', visited')
    {
      if d != c {
        assert Accounted(vs, d, stack, visited);
      }
    }
  }

  /** Once the stack is empty, the drawn pixels are exactly the interior
      region of the seed. */
  lemma SeedDone(vs: seq<Point>, seed: Cell, visited: set<Cell>, spans: seq<Span>)
    requires vs != []
    requires SeedInv(vs, seed, [], visited, spans)
    ensures forall i :: 0 <= i < |spans| ==> spans[i].xEnd == spans[i].xStart + 1
    ensures forall i, j :: 0 <= i < j < |spans| ==> spans[i] != spans[j]
    ensures forall c :: PixelRun(c) in spans <==> Connected(vs, seed, c)
  {
    var region := iset c | c in visited && Inside(vs, c);
    forall c | Connected(vs, seed, c)
      ensures PixelRun(c) in spans
    {
      var p :| IsPath(vs, p) && p[0] == seed && p[|p| - 1] == c;
      assert Inside(vs, seed);
      forall c', d | c' in region && Adjacent(c', d) && Inside(vs, d)
        ensures d in region
      {
        InsideInBox(vs, c');
        InsideInBox(vs, d);
        assert d in Neighbours(c', BoundingBox(vs));
      }
      ClosedRegion(vs, region, seed);
    }
  }

  /** The neighbour pushes of `simple_seed_fill`. */
  method PushNeighbours(stack: seq<Cell>, c: Cell, b: Box) returns (stack': seq<Cell>)
    ensures stack' == stack + Neighbours(c, b)
  {
    stack' := stack;
    if c.x + 1 <= b.maxX {
      stack' := stack' + [Cell(c.x + 1, c.y)];
    }
    if c.x - 1 >= b.minX {
      stack' := stack' + [Cell(c.x - 1, c.y)];
    }
    if c.y + 1 <= b.maxY {
      stack' := stack' + [Cell(c.x, c.y + 1)];
    }
    if c.y - 1 >= b.minY {
      stack' := stack' + [Cell(c.x, c.y - 1)];
    }
  }

  lemma SeedInit(vs: seq<Point>, seed: Cell)
    requires vs != []
    ensures SeedInv(vs, seed, [seed], {}, [])
  {
  }

  /** One pop of `simple_seed_fill`: skip a visited pixel, otherwise mark it
      visited and, when it is interior, draw it and push its neighbours. */
  method SeedPop(vs: seq<Point>, b: Box, seed: Cell, stack: seq<Cell>, visited: set<Cell>, spans: seq<Span>)
    returns (stack': seq<Cell>, visited': set<Cell>, spans': seq<Span>)
    requires vs != [] && b == BoundingBox(vs) && |stack| > 0
    requires SeedInv(vs, seed, stack, visited, spans)
    ensures SeedInv(vs, seed, stack', visited', spans')
    ensures spans' + Flatten(SeedFrames(vs, seed, stack', visited')) == spans + Flatten(SeedFrames(vs, seed, stack, visited))
    ensures visited <= visited'
    ensures |Universe(vs, seed) - visited'| < |Universe(vs, seed) - visited|
            || (visited' == visited && |stack'| < |stack|)
  {
    var c := stack[|stack| - 1];
    stack', visited', spans' := stack[..|stack| - 1], visited, spans;
    if c in visited {
      SeedSkip(vs, seed, stack, visited, spans);
      return;
    }
    visited' := visited + {c};
    assert Universe(vs, seed) - visited' == (Universe(vs, seed) - visited) - {c};
    if Inside(vs, c) {
      spans' := spans + [PixelRun(c)];
      stack' := PushNeighbours(stack', c, b);
      SeedDraw(vs, seed, stack, visited, spans);
    } else {
      SeedReject(vs, seed, stack, visited, spans);
    }
  }

  /** `simple_seed_fill`: draws the debug twin's frames, each interior pixel
      of the seed's region exactly once and nothing else. */
  method SimpleSeedFill(vs: seq<Point>, seedPoint: Point) returns (spans: seq<Span>)
    requires vs != []
    ensures spans == Flatten(SeedFrames(vs, SeedStart(seedPoint), [SeedStart(seedPoint)], {}))
    ensures forall i :: 0 <= i < |spans| ==> spans[i].xEnd == spans[i].xStart + 1
    ensures forall i, j :: 0 <= i < j < |spans| ==> spans[i] != spans[j]
    ensures forall c :: PixelRun(c) in spans <==> Connected(vs, SeedStart(seedPoint), c)
  {
    var seed := SeedStart(seedPoint);
    var visited: set<Cell>;
    visited, spans := SeedLoop(vs, seed);
    SeedDone(vs, seed, visited, spans);
  }

  /** The `while stack` loop of the stack fill, run to the empty stack. */
  method SeedLoop(vs: seq<Point>, seed: Cell) returns (visited: set<Cell>, spans: seq<Span>)
    requires vs != []
    ensures SeedInv(vs, seed, [], visited, spans)
    ensures spans == Flatten(SeedFrames(vs, seed, [seed], {}))
  {
    var b := BoundingBox(vs);
    var stack := [seed];
    visited, spans := {}, [];
    SeedInit(vs, seed);
    while |stack| > 0
      invariant SeedInv(vs, seed, stack, visited, spans)
      invariant spans + Flatten(SeedFrames(vs, seed, stack, visited)) == Flatten(SeedFrames(vs, seed, [seed], {}))
      decreases |Universe(vs, seed) - visited|, |stack|
    {
      stack, visited, spans := SeedPop(vs, b, seed, stack, visited, spans);
    }
  }

  // ---------------------------------------------------------------------
  // scanline_seed_fill and debug_scanline_seed_fill

  /** The span `s` is a whole interior run of its row: every pixel of it is
      interior and the pixels just beyond either end are not. */
  predicate MaximalRun(vs: seq<Point>, s: Span)
  {
    && s.xStart <= s.xEnd
    && (forall k :: s.xStart <= k <= s.xEnd ==> Inside(vs, Cell(k, s.y)))
    && !Inside(vs, Cell(s.xStart - 1, s.y))
    && !Inside(vs, Cell(s.xEnd + 1, s.y))
  }

  /** The left scan of `fill_line`: how far left the interior run of row `y`
      reaches from `x`. */
  function LeftEnd(vs: seq<Point>, x: int, y: int): (l: int)
    requires Inside(vs, Cell(x, y))
    ensures l <= x && !Inside(vs, Cell(l - 1, y))
    ensures forall k :: l <= k <= x ==> Inside(vs, Cell(k, y))
    decreases x - (InsideInBox(vs, Cell(x, y)); BoundingBox(vs).minX)
  {
    InsideInBox(vs, Cell(x, y));
    if Inside(vs, Cell(x - 1, y)) then
      InsideInBox(vs, Cell(x - 1, y));
      LeftEnd(vs, x - 1, y)
    else x
  }

  /** The right scan of `fill_line`. */
  function RightEnd(vs: seq<Point>, x: int, y: int): (r: int)
    requires Inside(vs, Cell(x, y))
    ensures x <= r && !Inside(vs, Cell(r + 1, y))
    ensures forall k :: x <= k <= r ==> Inside(vs, Cell(k, y))
    decreases (InsideInBox(vs, Cell(x, y)); BoundingBox(vs).maxX) - x
  {
    InsideInBox(vs, Cell(x, y));
    if Inside(vs, Cell(x + 1, y)) then
      InsideInBox(vs, Cell(x + 1, y));
      RightEnd(vs, x + 1, y)
    else x
  }

  /** The line `fill_line` draws through an interior pixel. */
  function RunThrough(vs: seq<Point>, c: Cell): (s: Span)
    requires Inside(vs, c)
    ensures MaximalRun(vs, s) && s.y == c.y && s.xStart <= c.x <= s.xEnd
  {
    Span(LeftEnd(vs, c.x, c.y), RightEnd(vs, c.x, c.y), c.y)
  }

  /** `fill_line`: both scans, bounded by the polygon's bounding box since
      ray casting rejects every pixel outside it. */
  method FillLine(vs: seq<Point>, x: int, y: int) returns (xLeft: int, xRight: int)
    requires Inside(vs, Cell(x, y))
    ensures Span(xLeft, xRight, y) == RunThrough(vs, Cell(x, y))
  {
    InsideInBox(vs, Cell(x, y));
    var b := BoundingBox(vs);
    xLeft := x;
    while Inside(vs, Cell(xLeft - 1, y))
      invariant xLeft <= x && Inside(vs, Cell(xLeft, y))
      invariant LeftEnd(vs, xLeft, y) == LeftEnd(vs, x, y)
      decreases xLeft - b.minX
    {
      InsideInBox(vs, Cell(xLeft - 1, y));
      xLeft := xLeft - 1;
    }
    xRight := x;
    while Inside(vs, Cell(xRight + 1, y))
      invariant x <= xRight && Inside(vs, Cell(xRight, y))
      invariant RightEnd(vs, xRight, y) == RightEnd(vs, x, y)
      decreases b.maxX - xRight
    {
      InsideInBox(vs, Cell(xRight + 1, y));
      xRight := xRight + 1;
    }
  }

  /** The pixels of row `ny` from `nx` to `xRight` that the span fill pushes:
      those not yet visited and inside the polygon, left to right. */
  function RowPushes(vs: seq<Point>, visited: set<Cell>, nx: int, xRight: int, ny: int): seq<Cell>
    decreases xRight - nx + 1
  {
    if nx > xRight then []
    else
      var c := Cell(nx, ny);
      (if c !in visited && Inside(vs, c) then [c] else []) + RowPushes(vs, visited, nx + 1, xRight, ny)
  }

  /** Only unvisited interior pixels of the row are pushed, and all of them. */
  lemma {:induction false} RowPushesMembers(vs: seq<Point>, visited: set<Cell>, nx: int, xRight: int, ny: int)
    ensures forall n :: n in RowPushes(vs, visited, nx, xRight, ny) <==>
      n.y == ny && nx <= n.x <= xRight && n !in visited && Inside(vs, n)
    decreases xRight - nx + 1
  {
    if nx <= xRight {
      RowPushesMembers(vs, visited, nx + 1, xRight, ny);
    }
  }

  /** Everything pushed after drawing `s`: the row below, then the row above. */
  function SpanPushes(vs: seq<Point>, visited: set<Cell>, s: Span): seq<Cell>
  {
    RowPushes(vs, visited, s.xStart, s.xEnd, s.y - 1) + RowPushes(vs, visited, s.xStart, s.xEnd, s.y + 1)
  }

  /** What the span fill pushes after drawing `s`: unvisited interior pixels
      right below or above it. */
  lemma SpanPushesMembers(vs: seq<Point>, visited: set<Cell>, s: Span)
    ensures forall n :: n in SpanPushes(vs, visited, s) ==>
      && Inside(vs, n) && n !in visited
      && s.xStart <= n.x <= s.xEnd && (n.y == s.y - 1 || n.y == s.y + 1)
  {
    RowPushesMembers(vs, visited, s.xStart, s.xEnd, s.y - 1);
    RowPushesMembers(vs, visited, s.xStart, s.xEnd, s.y + 1);
  }

  /** The pixels the span fill's stack can ever hold: the bounding box (when
      there is one) and the seed. */
  function ScanUniverse(vs: seq<Point>, seed: Cell): set<Cell>
  {
    (if |vs| > 0 then BoxCells(BoundingBox(vs)) else {}) + {seed}
  }

  lemma InsideInUniverse(vs: seq<Point>, seed: Cell, c: Cell)
    requires Inside(vs, c)
    ensures c in ScanUniverse(vs, seed)
  {
    InsideInBox(vs, c);
  }

  /** Visiting a pixel of a finite universe leaves fewer to visit. */
  lemma VisitShrinks(u: set<Cell>, visited: set<Cell>, c: Cell)
    requires c in u && c !in visited
    ensures |u - (visited + {c})| < |u - visited|
  {
    assert u - (visited + {c}) == (u - visited) - {c};
  }

  /** The pixels pushed after drawing a span stay in the universe. */
  lemma PushesInUniverse(vs: seq<Point>, seed: Cell, visited: set<Cell>, s: Span, rest: seq<Cell>)
    requires forall i :: 0 <= i < |rest| ==> rest[i] in ScanUniverse(vs, seed)
    ensures var stack := rest + SpanPushes(vs, visited, s);
            forall i :: 0 <= i < |stack| ==> stack[i] in ScanUniverse(vs, seed)
  {
    var pushed := SpanPushes(vs, visited, s);
    var stack := rest + pushed;
    SpanPushesMembers(vs, visited, s);
    forall i | 0 <= i < |stack|
      ensures stack[i] in ScanUniverse(vs, seed)
    {
      if i >= |rest| {
        assert stack[i] == pushed[i - |rest|];
        InsideInUniverse(vs, seed, stack[i]);
      }
    }
  }

  /** `debug_scanline_seed_fill` from a given stack and visited set: one
      frame per line `fill_line` draws. */
  function ScanFrames(vs: seq<Point>, seed: Cell, stack: seq<Cell>, visited: set<Cell>): seq<seq<Span>>
    requires forall i :: 0 <= i < |stack| ==> stack[i] in ScanUniverse(vs, seed)
    decreases |ScanUniverse(vs, seed) - visited|, |stack|
  {
    if |stack| == 0 then []
    else
      var c, rest := stack[|stack| - 1], stack[..|stack| - 1];
      if c in visited then ScanFrames(vs, seed, rest, visited)
      else
        VisitShrinks(ScanUniverse(vs, seed), visited, c);
        if Inside(vs, c) then
          var s := RunThrough(vs, c);
          PushesInUniverse(vs, seed, visited + {c}, s, rest);
          [[s]] + ScanFrames(vs, seed, rest + SpanPushes(vs, visited + {c}, s), visited + {c})
        else ScanFrames(vs, seed, rest, visited + {c})
  }

  /** Some line drawn so far covers pixel `c`. */
  ghost predicate Covered(spans: seq<Span>, c: Cell)
  {
    exists i :: 0 <= i < |spans| && spans[i].y == c.y && spans[i].xStart <= c.x <= spans[i].xEnd
  }

  /** `n` needs no more work: it is outside, visited, or waiting on the stack. */
  ghost predicate Handled(vs: seq<Point>, n: Cell, stack: seq<Cell>, visited: set<Cell>)
  {
    !Inside(vs, n) || n in visited || n in stack
  }

  /** The pixels just below and above column `k` of the line `s` need no
      more work. */
  ghost predicate ColumnHandled(vs: seq<Point>, s: Span, k: int, stack: seq<Cell>, visited: set<Cell>)
  {
    Handled(vs, Cell(k, s.y - 1), stack, visited) && Handled(vs, Cell(k, s.y + 1), stack, visited)
  }

  ghost predicate RowsHandled(vs: seq<Point>, s: Span, stack: seq<Cell>, visited: set<Cell>)
  {
    forall k :: s.xStart <= k <= s.xEnd ==> ColumnHandled(vs, s, k, stack, visited)
  }

  ghost predicate ScanStackIn(vs: seq<Point>, seed: Cell, stack: seq<Cell>)
  {
    forall i :: 0 <= i < |stack| ==> stack[i] in ScanUniverse(vs, seed)
  }

  /** The lines drawn are whole interior runs, everything they cover is in
      the seed's region, and so is everything on the stack but the seed. */
  ghost predicate ScanReached(vs: seq<Point>, seed: Cell, stack: seq<Cell>, spans: seq<Span>)
  {
    && (forall i :: 0 <= i < |spans| ==> MaximalRun(vs, spans[i]))
    && (forall c :: Covered(spans, c) ==> Connected(vs, seed, c))
    && (forall i :: 0 <= i < |stack| ==> (stack[i] == seed || Connected(vs, seed, stack[i])))
  }

  /** Nothing is lost: visited interior pixels are covered, the rows next to
      every line are handled, and the seed is visited or waiting. */
  ghost predicate ScanPending(vs: seq<Point>, seed: Cell, stack: seq<Cell>, visited: set<Cell>, spans: seq<Span>)
  {
    && (forall c :: c in visited && Inside(vs, c) ==> Covered(spans, c))
    && (forall i :: 0 <= i < |spans| ==> RowsHandled(vs, spans[i], stack, visited))
    && (seed in visited || seed in stack)
  }

  ghost predicate ScanInv(vs: seq<Point>, seed: Cell, stack: seq<Cell>, visited: set<Cell>, spans: seq<Span>)
  {
    && ScanStackIn(vs, seed, stack)
    && ScanReached(vs, seed, stack, spans)
    && ScanPending(vs, seed, stack, visited, spans)
  }

  lemma ScanInit(vs: seq<Point>, seed: Cell)
    ensures ScanInv(vs, seed, [seed], {}, [])
  {
  }

  /** Taking the top pixel off the stack and marking it visited leaves
      every line's neighbouring rows handled. */
  lemma RowsHandledAfterPop(vs: seq<Point>, s: Span, stack: seq<Cell>, visited: set<Cell>, visited': set<Cell>)
    requires |stack| > 0 && RowsHandled(vs, s, stack, visited)
    requires visited <= visited' && stack[|stack| - 1] in visited'
    ensures RowsHandled(vs, s, stack[..|stack| - 1], visited')
  {
    var rest := stack[..|stack| - 1];
    assert stack == rest + [stack[|stack| - 1]];
    forall k | s.xStart <= k <= s.xEnd
      ensures ColumnHandled(vs, s, k, rest, visited')
    {
      assert ColumnHandled(vs, s, k, stack, visited);
    }
  }

  lemma PendingAfterPop(vs: seq<Point>, seed: Cell, stack: seq<Cell>, visited: set<Cell>, spans: seq<Span>)
    requires |stack| > 0 && ScanPending(vs, seed, stack, visited, spans)
    requires !Inside(vs, stack[|stack| - 1]) || stack[|stack| - 1] in visited
    ensures ScanPending(vs, seed, stack[..|stack| - 1], visited + {stack[|stack| - 1]}, spans)
  {
    var c, rest := stack[|stack| - 1], stack[..|stack| - 1];
    assert stack == rest + [c];
    forall i | 0 <= i < |spans|
      ensures RowsHandled(vs, spans[i], rest, visited + {c})
    {
      RowsHandledAfterPop(vs, spans[i], stack, visited, visited + {c});
    }
  }

  /** Popping a visited pixel keeps the invariant. */
  lemma ScanSkip(vs: seq<Point>, seed: Cell, stack: seq<Cell>, visited: set<Cell>, spans: seq<Span>)
    requires |stack| > 0 && stack[|stack| - 1] in visited
    requires ScanInv(vs, seed, stack, visited, spans)
    ensures ScanInv(vs, seed, stack[..|stack| - 1], visited, spans)
  {
    var c := stack[|stack| - 1];
    PendingAfterPop(vs, seed, stack, visited, spans);
    assert visited + {c} == visited;
  }

  /** Popping an unvisited exterior pixel keeps the invariant. */
  lemma ScanReject(vs: seq<Point>, seed: Cell, stack: seq<Cell>, visited: set<Cell>, spans: seq<Span>)
    requires |stack| > 0 && stack[|stack| - 1] !in visited && !Inside(vs, stack[|stack| - 1])
    requires ScanInv(vs, seed, stack, visited, spans)
    ensures ScanInv(vs, seed, stack[..|stack| - 1], visited + {stack[|stack| - 1]}, spans)
  {
    PendingAfterPop(vs, seed, stack, visited, spans);
  }

  /** Every pixel of an interior run is in the region of any pixel of it. */
  lemma {:induction false} RunConnected(vs: seq<Point>, seed: Cell, s: Span, x: int, k: int)
    requires MaximalRun(vs, s)
    requires s.xStart <= x <= s.xEnd && s.xStart <= k <= s.xEnd
    requires Connected(vs, seed, Cell(x, s.y))
    ensures Connected(vs, seed, Cell(k, s.y))
    decreases if k <= x then x - k else k - x
  {
    if k < x {
      RunConnected(vs, seed, s, x, k + 1);
      ConnectedStep(vs, seed, Cell(k + 1, s.y), Cell(k, s.y));
    } else if k > x {
      RunConnected(vs, seed, s, x, k - 1);
      ConnectedStep(vs, seed, Cell(k - 1, s.y), Cell(k, s.y));
    }
  }

  /** Pushing more pixels never unhandles anything. */
  lemma RowsHandledGrow(vs: seq<Point>, s: Span, stack: seq<Cell>, more: seq<Cell>, visited: set<Cell>)
    requires RowsHandled(vs, s, stack, visited)
    ensures RowsHandled(vs, s, stack + more, visited)
  {
    forall k | s.xStart <= k <= s.xEnd
      ensures ColumnHandled(vs, s, k, stack + more, visited)
    {
      assert ColumnHandled(vs, s, k, stack, visited);
    }
  }

  /** After the pushes that follow drawing `s`, the rows next to `s` are
      handled. */
  lemma PushesHandle(vs: seq<Point>, s: Span, rest: seq<Cell>, visited: set<Cell>)
    ensures RowsHandled(vs, s, rest + SpanPushes(vs, visited, s), visited)
  {
    var below := RowPushes(vs, visited, s.xStart, s.xEnd, s.y - 1);
    var above := RowPushes(vs, visited, s.xStart, s.xEnd, s.y + 1);
    var stack' := rest + SpanPushes(vs, visited, s);
    assert stack' == rest + below + above;
    RowPushesMembers(vs, visited, s.xStart, s.xEnd, s.y - 1);
    RowPushesMembers(vs, visited, s.xStart, s.xEnd, s.y + 1);
    forall k | s.xStart <= k <= s.xEnd
      ensures ColumnHandled(vs, s, k, stack', visited)
    {
      var n, m := Cell(k, s.y - 1), Cell(k, s.y + 1);
      assert Inside(vs, n) && n !in visited ==> n in below;
      assert Inside(vs, m) && m !in visited ==> m in above;
    }
  }

  lemma DrawScanStackIn(vs: seq<Point>, seed: Cell, rest: seq<Cell>, visited: set<Cell>, s: Span)
    requires ScanStackIn(vs, seed, rest)
    ensures ScanStackIn(vs, seed, rest + SpanPushes(vs, visited, s))
  {
    var stack' := rest + SpanPushes(vs, visited, s);
    SpanPushesMembers(vs, visited, s);
    forall i | 0 <= i < |stack'|
      ensures stack'[i] in ScanUniverse(vs, seed)
    {
      if i >= |rest| {
        assert stack'[i] in SpanPushes(vs, visited, s);
        InsideInUniverse(vs, seed, stack'[i]);
      } else {
        assert stack'[i] == rest[i];
      }
    }
  }

  lemma DrawScanReached(vs: seq<Point>, seed: Cell, stack: seq<Cell>, visited: set<Cell>, spans: seq<Span>)
    requires |stack| > 0 && Inside(vs, stack[|stack| - 1])
    requires ScanReached(vs, seed, stack, spans)
    ensures var c := stack[|stack| - 1]; var s := RunThrough(vs, c);
      ScanReached(vs, seed, stack[..|stack| - 1] + SpanPushes(vs, visited, s), spans + [s])
  {
    var c, rest := stack[|stack| - 1], stack[..|stack| - 1];
    var s := RunThrough(vs, c);
    assert Connected(vs, seed, c) by {
      if c == seed {
        ConnectedSelf(vs, seed);
      }
    }
    assert Cell(c.x, s.y) == c;
    DrawnRunReached(vs, seed, spans, s, c.x);
    forall i | 0 <= i < |rest|
      ensures rest[i] == seed || Connected(vs, seed, rest[i])
    {
      assert rest[i] == stack[i];
    }
    PushedReached(vs, seed, rest, visited, s, c.x);
  }

  /** Adding a run through a pixel of the region keeps every covered pixel
      in the region. */
  lemma DrawnRunReached(vs: seq<Point>, seed: Cell, spans: seq<Span>, s: Span, x: int)
    requires MaximalRun(vs, s) && s.xStart <= x <= s.xEnd && Connected(vs, seed, Cell(x, s.y))
    requires forall d :: Covered(spans, d) ==> Connected(vs, seed, d)
    ensures forall d :: Covered(spans + [s], d) ==> Connected(vs, seed, d)
  {
    var spans' := spans + [s];
    forall d | Covered(spans', d)
      ensures Connected(vs, seed, d)
    {
      var i :| 0 <= i < |spans'| && spans'[i].y == d.y && spans'[i].xStart <= d.x <= spans'[i].xEnd;
      if i == |spans| {
        RunConnected(vs, seed, s, x, d.x);
        assert Cell(d.x, s.y) == d;
      } else {
        assert Covered(spans, d);
      }
    }
  }

  /** The pixels pushed after drawing a run of the region are in the region. */
  lemma PushedReached(vs: seq<Point>, seed: Cell, rest: seq<Cell>, visited: set<Cell>, s: Span, x: int)
    requires MaximalRun(vs, s) && s.xStart <= x <= s.xEnd && Connected(vs, seed, Cell(x, s.y))
    requires forall i :: 0 <= i < |rest| ==> rest[i] == seed || Connected(vs, seed, rest[i])
    ensures var stack := rest + SpanPushes(vs, visited, s);
      forall i :: 0 <= i < |stack| ==> stack[i] == seed || Connected(vs, seed, stack[i])
  {
    var pushed := SpanPushes(vs, visited, s);
    var stack := rest + pushed;
    SpanPushesMembers(vs, visited, s);
    forall i | 0 <= i < |stack|
      ensures stack[i] == seed || Connected(vs, seed, stack[i])
    {
      if i >= |rest| {
        var n := stack[i];
        assert n == pushed[i - |rest|];
        RunConnected(vs, seed, s, x, n.x);
        ConnectedStep(vs, seed, Cell(n.x, s.y), n);
      } else {
        assert stack[i] == rest[i];
      }
    }
  }


  lemma DrawScanPending(vs: seq<Point>, seed: Cell, stack: seq<Cell>, visited: set<Cell>, spans: seq<Span>)
    requires |stack| > 0 && Inside(vs, stack[|stack| - 1])
    requires ScanPending(vs, seed, stack, visited, spans)
    ensures var c := stack[|stack| - 1]; var s := RunThrough(vs, c);
      ScanPending(vs, seed, stack[..|stack| - 1] + SpanPushes(vs, visited + {c}, s), visited + {c}, spans + [s])
  {
    var c, rest := stack[|stack| - 1], stack[..|stack| - 1];
    var s := RunThrough(vs, c);
    var visited' := visited + {c};
    var pushed := SpanPushes(vs, visited', s);
    var spans', stack' := spans + [s], rest + pushed;
    assert stack == rest + [c];
    forall d | d in visited' && Inside(vs, d)
      ensures Covered(spans', d)
    {
      if d == c {
        assert spans'[|spans|] == s;
      } else {
        assert Covered(spans, d);
        var i :| 0 <= i < |spans| && spans[i].y == d.y && spans[i].xStart <= d.x <= spans[i].xEnd;
        assert spans'[i] == spans[i];
      }
    }
    forall i | 0 <= i < |spans'|
      ensures RowsHandled(vs, spans'[i], stack', visited')
    {
      if i == |spans| {
        PushesHandle(vs, s, rest, visited');
      } else {
        RowsHandledAfterPop(vs, spans[i], stack, visited, visited');
        RowsHandledGrow(vs, spans[i], rest, pushed, visited');
      }
    }
  }

  /** With nothing left on the stack, an interior neighbour of a covered
      pixel is covered: sideways it lies in the same whole run, and up or
      down it was visited. */
  lemma CoveredNeighbour(vs: seq<Point>, seed: Cell, visited: set<Cell>, spans: seq<Span>, c: Cell, d: Cell)
    requires ScanInv(vs, seed, [], visited, spans)
    requires Covered(spans, c) && Adjacent(c, d) && Inside(vs, d)
    ensures Covered(spans, d)
  {
    var i :| 0 <= i < |spans| && spans[i].y == c.y && spans[i].xStart <= c.x <= spans[i].xEnd;
    RunNeighbour(vs, spans[i], visited, c, d);
  }

  /** An interior neighbour of a pixel on a maximal run whose neighbouring
      rows are handled lies on the run or has been visited. */
  lemma RunNeighbour(vs: seq<Point>, s: Span, visited: set<Cell>, c: Cell, d: Cell)
    requires MaximalRun(vs, s) && RowsHandled(vs, s, [], visited)
    requires c.y == s.y && s.xStart <= c.x <= s.xEnd
    requires Adjacent(c, d) && Inside(vs, d)
    ensures (d.y == s.y && s.xStart <= d.x <= s.xEnd) || d in visited
  {
    if d.y == c.y {
      assert d == Cell(d.x, s.y);
    } else {
      assert ColumnHandled(vs, s, c.x, [], visited);
      assert d == Cell(c.x, s.y - 1) || d == Cell(c.x, s.y + 1);
    }
  }


  /** Once the stack is empty, the lines drawn cover exactly the interior
      region of the seed. */
  lemma ScanDone(vs: seq<Point>, seed: Cell, visited: set<Cell>, spans: seq<Span>)
    requires ScanInv(vs, seed, [], visited, spans)
    ensures forall c :: Covered(spans, c) <==> Connected(vs, seed, c)
  {
    var region := iset c | Covered(spans, c);
    forall c', d | c' in region && Adjacent(c', d) && Inside(vs, d)
      ensures d in region
    {
      CoveredNeighbour(vs, seed, visited, spans, c', d);
    }
    forall c | Connected(vs, seed, c)
      ensures Covered(spans, c)
    {
      var p :| IsPath(vs, p) && p[0] == seed && p[|p| - 1] == c;
      assert Inside(vs, seed);
      ClosedRegion(vs, region, seed);
    }
  }

  /** Drawing the run through an unvisited interior pixel and pushing the
      rows next to it keeps the invariant. */
  lemma ScanDraw(vs: seq<Point>, seed: Cell, stack: seq<Cell>, visited: set<Cell>, spans: seq<Span>, s: Span, stack': seq<Cell>)
    requires |stack| > 0 && stack[|stack| - 1] !in visited && Inside(vs, stack[|stack| - 1])
    requires ScanInv(vs, seed, stack, visited, spans)
    requires s == RunThrough(vs, stack[|stack| - 1])
    requires stack' == stack[..|stack| - 1] + SpanPushes(vs, visited + {stack[|stack| - 1]}, s)
    ensures ScanInv(vs, seed, stack', visited + {stack[|stack| - 1]}, spans + [s])
  {
    var c := stack[|stack| - 1];
    DrawScanStackIn(vs, seed, stack[..|stack| - 1], visited + {c}, s);
    DrawScanReached(vs, seed, stack, visited + {c}, spans);
    DrawScanPending(vs, seed, stack, visited, spans);
  }

  lemma ScanFramesDraw(vs: seq<Point>, seed: Cell, stack: seq<Cell>, visited: set<Cell>, s: Span, stack': seq<Cell>, spans: seq<Span>)
    requires |stack| > 0 && stack[|stack| - 1] !in visited && Inside(vs, stack[|stack| - 1])
    requires ScanStackIn(vs, seed, stack)
    requires s == RunThrough(vs, stack[|stack| - 1])
    requires stack' == stack[..|stack| - 1] + SpanPushes(vs, visited + {stack[|stack| - 1]}, s)
    ensures ScanStackIn(vs, seed, stack')
    ensures (spans + [s]) + Flatten(ScanFrames(vs, seed, stack', visited + {stack[|stack| - 1]}))
            == spans + Flatten(ScanFrames(vs, seed, stack, visited))
  {
    var c := stack[|stack| - 1];
    DrawScanStackIn(vs, seed, stack[..|stack| - 1], visited + {c}, s);
    ScanFramesUnfold(vs, seed, stack, visited, s, stack');
    FlattenStep(spans, [s], ScanFrames(vs, seed, stack, visited), ScanFrames(vs, seed, stack', visited + {c}),
                spans + Flatten(ScanFrames(vs, seed, stack, visited)));
  }

  lemma ScanFramesUnfold(vs: seq<Point>, seed: Cell, stack: seq<Cell>, visited: set<Cell>, s: Span, stack': seq<Cell>)
    requires |stack| > 0 && stack[|stack| - 1] !in visited && Inside(vs, stack[|stack| - 1])
    requires ScanStackIn(vs, seed, stack) && ScanStackIn(vs, seed, stack')
    requires s == RunThrough(vs, stack[|stack| - 1])
    requires stack' == stack[..|stack| - 1] + SpanPushes(vs, visited + {stack[|stack| - 1]}, s)
    ensures ScanFrames(vs, seed, stack, visited) == [[s]] + ScanFrames(vs, seed, stack', visited + {stack[|stack| - 1]})
  {
  }

  /** The pushes for one neighbouring row, scanning `xLeft` to `xRight`. */
  method PushRow(vs: seq<Point>, visited: set<Cell>, xLeft: int, xRight: int, ny: int, stack: seq<Cell>)
    returns (stack': seq<Cell>)
    ensures stack' == stack + RowPushes(vs, visited, xLeft, xRight, ny)
  {
    stack' := stack;
    var nx := xLeft;
    while nx <= xRight
      invariant nx <= xRight + 1 || nx == xLeft
      invariant stack' + RowPushes(vs, visited, nx, xRight, ny) == stack + RowPushes(vs, visited, xLeft, xRight, ny)
      decreases xRight - nx + 1
    {
      var n := Cell(nx, ny);
      if n !in visited && Inside(vs, n) {
        stack' := stack' + [n];
      }
      nx := nx + 1;
    }
  }

  /** One pop of `scanline_seed_fill`. */
  method ScanPop(vs: seq<Point>, seed: Cell, stack: seq<Cell>, visited: set<Cell>, spans: seq<Span>)
    returns (stack': seq<Cell>, visited': set<Cell>, spans': seq<Span>)
    requires |stack| > 0
    requires ScanInv(vs, seed, stack, visited, spans)
    ensures ScanInv(vs, seed, stack', visited', spans')
    ensures spans' + Flatten(ScanFrames(vs, seed, stack', visited')) == spans + Flatten(ScanFrames(vs, seed, stack, visited))
    ensures |ScanUniverse(vs, seed) - visited'| < |ScanUniverse(vs, seed) - visited|
            || (visited' == visited && |stack'| < |stack|)
  {
    var c := stack[|stack| - 1];
    stack', visited', spans' := stack[..|stack| - 1], visited, spans;
    if c in visited {
      ScanSkip(vs, seed, stack, visited, spans);
      return;
    }
    visited' := visited + {c};
    assert ScanUniverse(vs, seed) - visited' == (ScanUniverse(vs, seed) - visited) - {c};
    assert c in ScanUniverse(vs, seed);
    if !Inside(vs, c) {
      ScanReject(vs, seed, stack, visited, spans);
      return;
    }
    stack', spans' := ScanDrawStep(vs, seed, stack, visited, spans);
  }

  /** The interior branch of a pop, with what it keeps. */
  method ScanDrawStep(vs: seq<Point>, seed: Cell, stack: seq<Cell>, visited: set<Cell>, spans: seq<Span>)
    returns (stack': seq<Cell>, spans': seq<Span>)
    requires |stack| > 0 && stack[|stack| - 1] !in visited && Inside(vs, stack[|stack| - 1])
    requires ScanInv(vs, seed, stack, visited, spans)
    ensures ScanInv(vs, seed, stack', visited + {stack[|stack| - 1]}, spans')
    ensures spans' + Flatten(ScanFrames(vs, seed, stack', visited + {stack[|stack| - 1]}))
            == spans + Flatten(ScanFrames(vs, seed, stack, visited))
  {
    var c := stack[|stack| - 1];
    var s;
    s, stack', spans' := ScanRun(vs, stack[..|stack| - 1], visited + {c}, spans, c);
    ScanDraw(vs, seed, stack, visited, spans, s, stack');
    ScanFramesDraw(vs, seed, stack, visited, s, stack', spans);
  }

  /** The interior branch of a pop: `fill_line` draws the run through `c`,
      then the unvisited interior pixels below and above it are pushed. */
  method ScanRun(vs: seq<Point>, stack: seq<Cell>, visited: set<Cell>, spans: seq<Span>, c: Cell)
    returns (s: Span, stack': seq<Cell>, spans': seq<Span>)
    requires Inside(vs, c)
    ensures s == RunThrough(vs, c)
    ensures spans' == spans + [s]
    ensures stack' == stack + SpanPushes(vs, visited, s)
  {
    var xLeft, xRight := FillLine(vs, c.x, c.y);
    s := Span(xLeft, xRight, c.y);
    spans' := spans + [s];
    var below := PushRow(vs, visited, xLeft, xRight, c.y - 1, stack);
    stack' := PushRow(vs, visited, xLeft, xRight, c.y + 1, below);
    assert Cell(c.x, c.y) == c;
  }

  /** `scanline_seed_fill`: draws the debug twin's frames, each a whole
      interior run, and together they cover exactly the seed's region. */
  method ScanlineSeedFill(vs: seq<Point>, seedPoint: Point) returns (spans: seq<Span>)
    ensures spans == Flatten(ScanFrames(vs, SeedStart(seedPoint), [SeedStart(seedPoint)], {}))
    ensures forall i :: 0 <= i < |spans| ==> MaximalRun(vs, spans[i])
    ensures forall c :: Covered(spans, c) <==> Connected(vs, SeedStart(seedPoint), c)
  {
    var seed := SeedStart(seedPoint);
    var stack := [seed];
    var visited: set<Cell> := {};
    spans := [];
    ScanInit(vs, seed);
    while |stack| > 0
      invariant ScanInv(vs, seed, stack, visited, spans)
      invariant spans + Flatten(ScanFrames(vs, seed, stack, visited)) == Flatten(ScanFrames(vs, seed, [seed], {}))
      decreases |ScanUniverse(vs, seed) - visited|, |stack|
    {
      stack, visited, spans := ScanPop(vs, seed, stack, visited, spans);
    }
    ScanDone(vs, seed, visited, spans);
  }
}
