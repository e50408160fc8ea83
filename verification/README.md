# 2D rasterisation and polygon geometry kernel

This project models the computational core of a small graphics editor. The
editor is written as plain functions over coordinate tuples, and it has three parts:

- **Polygon geometry and fills** (`lab6/logic.py`; `lab5/logic.py` is an
  earlier copy of its geometry half with the same behaviour). The geometry covers:
  - the orientation test `cross` and the convexity test;
  - even-odd ray casting;
  - the inward-normal choice;
  - the monotone-chain hull (called Graham in the source) and the gift-wrapping hull;
  - segment/segment and line/polygon intersection.

  There are four fills: ordered edge list, active edge list, the 4-connected
  stack seed fill, and the span seed fill.
- **Line rasterisers** (`lab12/first_order_algorithms.py`): the scalar helpers
  `ipart`/`round_`/`fpart`/`rfpart`, the gray level of `intensity_to_hex`,
  DDA, integer Bresenham, and Wu's antialiased line.
- **Conic rasterisers** (`lab12/second_order_algorithms.py`): the midpoint
  circle with eight-way mirroring, de-duplication and sorting, and the
  two-region midpoint ellipse with four-way mirroring.

Modelling choices:
- Python floats are exact `real`s.
- `int()` on a float is `Scalar.Trunc`, which truncates toward zero.
- `math.floor` is `.Floor`.
- `sorted()` and `list.sort(key=...)` are the stable insertion sort
  `Sorting.SortBy`, using a lexicographic key.
- Each fill returns the runs `(x_start, x_end, y)` it would pass to
  `canvas.create_line`, in drawing order. Each fill also has a pure
  definition of the same runs grouped into frames, one frame per
  `canvas.update()` of its `debug_*` twin. The method that models the plain
  fill is proved to return exactly the concatenation of those frames, so
  the plain fill and its debug twin draw the same runs in the same order.
- The unbounded loops get measures instead of fuel where possible:
  - the seed fills terminate because the set of unvisited pixels in a finite
    universe shrinks;
  - the run scans of `fill_line` stop inside the polygon's bounding box;
  - Bresenham's walk ends after at most |dx| + |dy| steps;
  - the circle and ellipse loops have arithmetic measures.

  Only the gift-wrapping loop takes a fuel bound.

Module layout, one file per module:
- `scalar.dfy` (Scalar);
- `seqs.dfy` (Seqs);
- `sorting.dfy` (Sorting);
- `geometry.dfy` (Geometry);
- `hull.dfy` (Hull);
- `intersection.dfy` (Intersection);
- `scanfill.dfy` (ScanFill);
- `fillagree.dfy` (FillAgreement): the two scanline fills draw the same runs;
- `seedfill.dfy` (SeedFill);
- `lines.dfy` (Lines);
- `conics.dfy` (Conics).

## Model

| member | source | states |
|---|---|---|
| Scalar.Trunc | lab6/logic.py:211-212 | `int()` of a float truncates toward zero: for v >= 0 the result is the floor, for v < 0 it is the ceiling |
| Scalar.IPart | lab12/first_order_algorithms.py:4-5 | `ipart(v)` is the unique integer n with n <= v < n + 1 |
| Scalar.Round | lab12/first_order_algorithms.py:7-8 | `round_(v)` is the integer n with n - 0.5 <= v < n + 0.5, so halves round up |
| Scalar.FPart | lab12/first_order_algorithms.py:10-11 | `fpart(v)` lies in [0, 1) and v minus it is `ipart(v)` |
| Scalar.RFPart | lab12/first_order_algorithms.py:13-14 | `rfpart(v)` lies in (0, 1] and adds up with `fpart(v)` to exactly 1 |
| Scalar.Clamp01 | lab12/first_order_algorithms.py:19-22 | the clamped intensity lies in [0, 1] and is unchanged when already in [0, 1] |
| Scalar.GrayLevel | lab12/first_order_algorithms.py:16-24 | the gray level lies in 0..255; intensity >= 1 gives 0 (black) and intensity <= 0 gives 255 (white) |
| Scalar.GrayLevelAntitone | lab12/first_order_algorithms.py:23 | a higher intensity never gives a lighter gray |
| Sorting.InsertByPerm | lab6/logic.py:94 | stable insertion adds exactly the new element to the multiset |
| Sorting.SortByPerm | lab6/logic.py:94 | sorting permutes its input |
| Sorting.SortBySorted | lab6/logic.py:94 | the sorted sequence is ordered by the lexicographic key |
| Sorting.SortRealsAscending | lab6/logic.py:208 | `intersections.sort()` yields an ascending permutation of the crossings |
| Sorting.AscendingUnique | lab6/logic.py:208 | two ascending permutations of the same values are equal, so the sorted crossings do not depend on how they were produced |
| Geometry.CrossReversed | lab6/logic.py:27-29 | walking a triangle backwards negates `cross` |
| Geometry.Signs | lab6/logic.py:38-46 | the recorded signs are all true iff no turn from index i on is clockwise, and contain no true iff no turn is counter-clockwise; zero turns are skipped |
| Geometry.IsConvex | lab6/logic.py:31-47 | false for fewer than 3 vertices; otherwise true iff no turn is clockwise or no turn is counter-clockwise |
| Geometry.TurnReversed | lab6/logic.py:40-44 | the turn at j of the reversed polygon is the negated turn at the mirrored index of the original |
| Geometry.IsConvexReverse | lab5/logic.py:17-29 | reversing the vertex order does not change the convexity verdict |
| Geometry.ToggleParity | lab6/logic.py:55-61 | toggling `inside` once per counted edge ends at the start value xor the parity of the number of counted edges |
| Geometry.PointInPolygon | lab6/logic.py:49-62 | the point is inside iff an odd number of edges straddle its row and cross it to the right; the division only happens on straddling edges, whose end heights differ |
| Geometry.CrossingXBetween | lab6/logic.py:60 | the crossing abscissa lies between the edge's end abscissas |
| Geometry.StraddleParity | lab5/logic.py:39-41 | the number of edges from vertex i to the closing edge that straddle a row is odd iff vertex i and vertex 0 lie on different sides of it |
| Geometry.CountLeftOfBox | lab6/logic.py:57-61 | left of every vertex, each straddling edge counts as a crossing |
| Geometry.PointInPolygonInBox | lab6/logic.py:49-62 | a point reported inside lies in the half-open bounding box of the vertices |
| Geometry.LeftOfBoxOutside | lab6/logic.py:49-62 | a point left of every vertex is outside, because a closed polygon has an even number of straddling edges |
| Geometry.MinX | lab6/logic.py:262 | `min(x for x, y in vertices)` is a vertex abscissa no larger than any other |
| Geometry.MaxY | lab6/logic.py:196 | `max(y for x, y in vertices)` is a vertex ordinate no smaller than any other |
| Geometry.InternalNormals | lab6/logic.py:64-85 | one normal per edge; it is perpendicular to its edge and as long as it; it is `(-dy, dx)` when the probe at the edge midpoint is inside and `(dy, -dx)` otherwise |
| Hull.LexMin | lab6/logic.py:119 | `min(points, key=(x, y))` is an input point lexicographically below all others |
| Hull.LexMinUnique | lab6/logic.py:119 | any input point lexicographically below all others is that minimum |
| Hull.PopWhile | lab6/logic.py:97-98 | popping leaves a prefix of the chain, keeps its first point, and ends with a strict left turn towards p |
| Hull.Push | lab6/logic.py:96-99 | after the pops and the append, every consecutive triple turns strictly counter-clockwise, the chain ends at p and keeps its first point, and holds only old points and p |
| Hull.PushLeft | lab6/logic.py:97-99 | the popped chain extended by p turns strictly left throughout |
| Hull.BuildChain | lab6/logic.py:95-99 | the chain turns strictly left, holds only input points, and starts and ends at the first and last input point |
| Hull.SortedPoints | lab6/logic.py:94 | `sorted(points)` is a lexicographically ordered permutation of the points |
| Hull.SortedHeadIsLexMin | lab6/logic.py:94 | the first sorted point is the lexicographic minimum |
| Hull.SortedLastIsLexMax | lab6/logic.py:94 | every input point is lexicographically at most the last sorted point |
| Hull.ChainPointsAreInputs | lab5/logic.py:65-80 | the lower and upper chains contain only input points |
| Hull.ConvexHull | lab6/logic.py:87-106 | fewer than 3 points are returned unchanged; otherwise the hull is lower[:-1] + upper[:-1] and every hull point is an input point |
| Hull.ConvexHullTurnsLeft | lab6/logic.py:95-104 | both chains turn strictly counter-clockwise at every consecutive triple |
| Hull.ConvexHullEnds | lab6/logic.py:105 | the hull starts at the lexicographic minimum and reaches the lexicographic maximum where the upper chain begins |
| Hull.DistSq | lab6/logic.py:108-110 | the squared distance is non-negative and zero from a point to itself |
| Hull.Candidate | lab6/logic.py:124-136 | the scan finds no candidate iff every remaining point equals p; a found candidate is an input point other than p |
| Hull.WrapFrom | lab6/logic.py:122-139 | the wrap extends the hull collected so far with p; it appends only input points and at most one point per unit of fuel; it is degenerate iff every point equals p |
| Hull.ConvexHullJarvis | lab6/logic.py:112-140 | fewer than 3 points are returned unchanged; otherwise the hull starts at the lexicographic minimum and holds only input points; all points equal is the crashing case |
| Hull.HullsShareFirstPoint | lab5/logic.py:87-111 | gift wrapping and the monotone chain start at the same point |
| Intersection.CrossIsVectorCross | lab6/logic.py:144-148 | `cross(o, a, b)` is `vector_cross(a - o, b - o)` |
| Intersection.ParamsMeet | lab6/logic.py:161-165 | for non-parallel directions, P + t·(Q−P) and R + u·(S−R) are the same point |
| Intersection.SegmentIntersection | lab6/logic.py:150-166 | None when the absolute denominator is below 1e-10; otherwise a point iff t and u both lie in [0, 1], and the point is on both segments |
| Intersection.SegmentIntersectionComplete | lab5/logic.py:119-130 | any common point at parameters in [0, 1] of two non-parallel segments is the one returned |
| Intersection.HitAt | lab6/logic.py:162-166 | with t and u written as quotients of cross products, the result is a point exactly when both quotients lie in [0, 1] |
| Intersection.EdgeHits | lab6/logic.py:179-182 | one test per edge, from vertex i to vertex (i + 1) mod n |
| Intersection.LinePolygonIntersections | lab6/logic.py:168-185 | at most one point per edge, in edge order; each is the intersection with the edge it came from |
| Intersection.IntersectionsOnLine | lab5/logic.py:132-142 | every reported point lies on the segment P–Q |
| Intersection.DiagonalsMeetAtCentre | lab6/logic.py:150-166 | the diagonals of the square [0, a]² meet at (a/2, a/2) |
| Intersection.DemoLineMeetsRectangleOnce | lab5/logic.py:144-150 | the demo line (50,50)–(250,150) meets the rectangle (100,30),(300,30),(300,200),(100,200) exactly once, at (100, 75) |
| ScanFill.TruncMonotone | lab6/logic.py:211-212 | `int()` keeps the order of the crossings it truncates |
| ScanFill.PairSpansShape | lab6/logic.py:209-213 | k crossings give k/2 spans, pairing crossings 2i and 2i+1 and dropping an odd one; on sorted crossings each span runs left to right and spans do not overlap |
| ScanFill.PairUp | lab6/logic.py:209-213 | one span per pair of crossings (an odd last crossing is dropped); span `i` joins crossings `2i` and `2i + 1`, each cut with `int()`, on row `y`; on sorted crossings the spans run left to right and do not overlap |
| ScanFill.Intersections | lab6/logic.py:198-207 | for every point of row `y`, the collected crossings right of it are exactly the edges its rightward ray crosses, and there is one crossing per edge straddling the row; their number is even |
| ScanFill.RowCrossingsRay | lab6/logic.py:198-207 | the same three facts for the crossing list of a row, for every point of that row at once |
| ScanFill.OrderedRowStep | lab6/logic.py:198-213 | a scanline draws half as many spans as it has crossings, each left to right on that row; span `k` joins sorted crossings `2k` and `2k + 1`; away from the crossings, `(x, y)` passes the ray-casting test exactly when `x` lies strictly inside one of the joined pairs |
| ScanFill.OrderedRows | lab6/logic.py:323-341 | the debug twin refreshes the canvas once per scanline from min_y to max_y inclusive |
| ScanFill.OrderedRowsStep | lab6/logic.py:197-213 | drawing one row and moving to the next keeps the runs drawn plus the runs to come equal to the whole fill |
| ScanFill.OrderedLoop | lab6/logic.py:197-213 | the row loop draws the frames of the rows lo..hi in order |
| ScanFill.OrderedEdgeFill | lab6/logic.py:189-213 | the fill draws exactly the runs of the per-row frames of its debug twin, in order |
| ScanFill.CrossingsMatchRay | lab6/logic.py:200-207 | on an integer row, the crossings the fill collects are those the ray cast counts: as many straddling edges, and the same number right of x |
| ScanFill.RowXIsCrossingX | lab6/logic.py:206 | the fill's crossing formula and the ray cast's give the same abscissa |
| ScanFill.CountAboveSorted | lab6/logic.py:208 | sorting does not change how many crossings lie right of x |
| ScanFill.OrderedRowInside | lab6/logic.py:197-213 | off the crossings, a point of row y is inside by ray casting iff it lies strictly inside one of the pairs the fill joins |
| ScanFill.InsidePair | lab6/logic.py:209-212 | in an even number of ascending crossings, an odd number right of x means x lies inside one of the pairs 0-1, 2-3, … |
| ScanFill.OrderedRowShape | lab6/logic.py:208-213 | a row emits half as many spans as it has crossings, each on that row and running left to right |
| ScanFill.OrderedRowsValid | lab6/logic.py:197-213 | every drawn span runs left to right on a row between min_y and max_y |
| ScanFill.MakeEdge | lab6/logic.py:226-234 | an edge-table entry has `ymin <= ymax`, taking x and the inverse slope from its lower end |
| ScanFill.EdgeList | lab6/logic.py:223-234 | every entry of the edge table has `ymin <= ymax` |
| ScanFill.BuildEdgeList | lab6/logic.py:222-234 | the table holds an entry for a polygon edge exactly when that edge is not horizontal, and nothing else; it has at most one entry per edge, and every entry has `ymin <= ymax` |
| ScanFill.EdgeListMembers | lab6/logic.py:223-234 | the entries built from edge `i` on are exactly those of the non-horizontal edges among them, at most one per edge |
| ScanFill.ShortEdgeNeverLive | lab6/logic.py:234-246 | an edge whose ends truncate to the same row gets `ymin == ymax`, so it is dropped on the row it is admitted and draws nothing |
| ScanFill.EdgeListFlat | lab6/logic.py:236-237 | the edge table is empty iff all vertices share one height, and then the fill draws nothing |
| ScanFill.MaxYmax | lab6/logic.py:239 | the largest `ymax` in the table is attained and bounds every entry |
| ScanFill.Admit | lab6/logic.py:243-245 | the admitted entries are the next run of table entries starting on row y, appended in table order |
| ScanFill.SortedXAscending | lab6/logic.py:247 | sorting the active list by x makes its abscissas ascending |
| ScanFill.ActiveRowShape | lab6/logic.py:246-252 | after filtering, every active edge has `ymax > y`; the row's spans run left to right and do not overlap, one per pair of active edges |
| ScanFill.ActiveStep | lab6/logic.py:243-254 | the table index moves past exactly the entries starting on row `y`; the next active list holds the admitted edges that reach above `y`, each moved on by its inverse slope, and nothing else; the row has half as many spans as active edges, all on row `y`, left to right and not overlapping |
| ScanFill.ActiveAdvance | lab6/logic.py:243-254 | the list a row hands on is, as a multiset, the admitted edges reaching above the row, each advanced one row, and every edge in it reaches above the row |
| ScanFill.ActiveRowsStep | lab6/logic.py:369-383 | the debug twin refreshes once per scanline; the frame of row y is the runs of that step |
| ScanFill.ActiveTurn | lab6/logic.py:242-254 | one turn of the row loop draws the first frame and leaves the rest |
| ScanFill.ActiveLoop | lab6/logic.py:240-254 | the row loop from min_y to max_y - 1 draws the frames in order |
| ScanFill.ActiveEdgeFill | lab6/logic.py:215-254 | the fill draws exactly the runs of the per-row frames of its debug twin, in order; an empty table draws nothing |
| FillAgreement.EdgeAtRow | lab6/logic.py:228-234 | on whole-number vertex heights, an entry covers row y exactly when its edge meets row y, and its x advanced to y is the line-equation crossing |
| FillAgreement.EdgeListCrossings | lab6/logic.py:200-207 | the crossings of the edge-table entries at row y are the ordered fill's crossings, in the same order |
| FillAgreement.AdmitStep | lab6/logic.py:243-245 | after admission, the active list holds, as a multiset, every entry started by row y, advanced to y |
| FillAgreement.LiveCovers | lab6/logic.py:246 | filtering started entries by `ymax > y` keeps exactly the entries covering row y |
| FillAgreement.AelStep | lab6/logic.py:243-254 | one scanline keeps the active-list invariant for the next row |
| FillAgreement.AelRowCrossings | lab6/logic.py:243-247 | the active abscissas on row y are, as a multiset, the crossings of the covering entries |
| FillAgreement.AelRowAgrees | lab6/logic.py:246-252 | each active-list row draws the same spans as the ordered fill's row |
| FillAgreement.AelRowsAgree | lab6/logic.py:242-254 | the active-list frames from row y equal the ordered fill's frames over the same rows |
| FillAgreement.EdgeListBounds | lab6/logic.py:195-196 | every entry lies between the ordered fill's first and last row |
| FillAgreement.OutsideQuiet | lab6/logic.py:203-207 | a row no entry covers draws nothing in the ordered fill |
| FillAgreement.OuterRowsQuiet | lab6/logic.py:197-213 | the ordered fill draws nothing outside the rows covered by the table |
| FillAgreement.TableEntries | lab6/logic.py:235 | sorting the table by ymin keeps exactly its entries |
| FillAgreement.AelStart | lab6/logic.py:238-241 | the row loop starts from the smallest ymin with an empty active list |
| FillAgreement.FlatMatchesOrdered | lab6/logic.py:236-237 | when the active-list fill returns early, the ordered fill draws nothing either |
| FillAgreement.ActiveMatchesOrdered | lab6/logic.py:189-254 | on whole-number vertex heights, both scanline fills draw exactly the same runs in the same order |
| SeedFill.ClosedRegion | lab6/logic.py:268-282 | a set containing the seed that contains every inside 4-neighbour of its members contains every pixel connected to the seed |
| SeedFill.InsideInBox | lab6/logic.py:262-265 | an inside pixel lies in the truncated bounding box |
| SeedFill.Neighbours | lab6/logic.py:275-282 | the pushed pixels are the 4-neighbours in the bounding box, in the order right, left, down, up |
| SeedFill.SeedInit | lab6/logic.py:266-267 | the fill starts with the seed on the stack, nothing visited and nothing drawn |
| SeedFill.SeedSkip | lab6/logic.py:270-271 | popping a visited pixel keeps the fill's invariant |
| SeedFill.SeedReject | lab6/logic.py:272-273 | marking an outside pixel visited keeps the invariant and draws nothing |
| SeedFill.SeedDraw | lab6/logic.py:272-282 | drawing an inside pixel and pushing its neighbours keeps the invariant |
| SeedFill.SeedPop | lab6/logic.py:268-282 | one loop turn keeps the invariant and the runs still to come, and strictly shrinks the unvisited part of a finite universe |
| SeedFill.SeedDone | lab6/logic.py:256-282 | at the empty stack every drawn run is one pixel, no pixel is drawn twice, and a pixel is drawn iff it is 4-connected to the seed through inside pixels |
| SeedFill.SimpleSeedFill | lab6/logic.py:256-282 | the fill draws each pixel of the seed's 4-connected inside region exactly once and nothing else, in the order of its debug twin's frames |
| SeedFill.SeedLoop | lab6/logic.py:396-413 | the stack loop draws exactly the runs of the debug twin, one frame per drawn pixel |
| SeedFill.LeftEnd | lab6/logic.py:290-292 | the left scan stops at the first outside pixel, and every pixel it passes is inside |
| SeedFill.RightEnd | lab6/logic.py:293-295 | the right scan stops at the first outside pixel, and every pixel it passes is inside |
| SeedFill.RunThrough | lab6/logic.py:289-297 | `fill_line` draws the maximal inside run of the row through its pixel |
| SeedFill.FillLine | lab6/logic.py:289-297 | the two scanning loops compute the ends of that run |
| SeedFill.RowPushesMembers | lab6/logic.py:310-312 | a pixel is pushed for a neighbouring row iff it lies under the run, is unvisited and is inside |
| SeedFill.SpanPushesMembers | lab6/logic.py:309-312 | pushes come from the rows above and below the run only |
| SeedFill.ScanSkip | lab6/logic.py:303-304 | popping a visited pixel keeps the span fill's invariant |
| SeedFill.ScanReject | lab6/logic.py:305-307 | marking an outside pixel visited keeps the invariant |
| SeedFill.ScanDraw | lab6/logic.py:308-312 | drawing the run through a pixel and pushing its neighbours keeps the invariant |
| SeedFill.ScanPop | lab6/logic.py:301-312 | one loop turn keeps the invariant and the runs still to come, and strictly shrinks the unvisited universe |
| SeedFill.CoveredNeighbour | lab6/logic.py:309-312 | at the empty stack, an inside 4-neighbour of a covered pixel is covered too |
| SeedFill.ScanDone | lab6/logic.py:284-312 | at the empty stack the drawn runs cover exactly the pixels 4-connected to the seed |
| SeedFill.ScanFramesUnfold | lab6/logic.py:428-441 | the debug twin refreshes after each drawn run, so each run is its own frame |
| SeedFill.ScanlineSeedFill | lab6/logic.py:284-312 | every drawn run is a maximal inside run; the runs cover exactly the seed's 4-connected inside region, in the order of the debug twin's frames |
| Lines.DdaSteps | lab12/first_order_algorithms.py:32 | the step count is the truncated larger coordinate difference |
| Lines.Dda | lab12/first_order_algorithms.py:27-41 | steps + 1 points, the k-th at the start plus k increments, starting at the start point; with a positive step count the last point is the end point exactly |
| Lines.StepsCover | lab12/first_order_algorithms.py:33-34 | steps increments add up to the whole difference |
| Lines.DdaReachesEnd | lab12/first_order_algorithms.py:37-40 | the last point equals the end point when the step count is positive |
| Lines.DdaIntegerEndpoints | lab12/first_order_algorithms.py:27-41 | for integer endpoints the last point is the end point and each increment is at most one pixel |
| Lines.UnitIncrement | lab12/first_order_algorithms.py:33-34 | an increment is at most one pixel when the difference is at most the step count |
| Lines.ErrStart | lab12/first_order_algorithms.py:51 | the error term starts at dx - dy |
| Lines.ErrSteps | lab12/first_order_algorithms.py:58-63 | an x step subtracts dy and a y step adds dx |
| Lines.NoOvershoot | lab12/first_order_algorithms.py:55-63 | once one coordinate reaches its end, the error term forbids further steps along it |
| Lines.WalkStep | lab12/first_order_algorithms.py:53-63 | one turn away from the end moves to a valid state and draws the current pixel first |
| Lines.BresenhamWalk | lab12/first_order_algorithms.py:53-64 | the walk starts at the current pixel |
| Lines.BresenhamWalkShape | lab12/first_order_algorithms.py:53-64 | the walk ends at the end pixel; it has between max(abs(dx), abs(dy)) + 1 and abs(dx) + abs(dy) + 1 pixels; each pixel differs from the one before, moving 0 or 1 along each axis and only in the fixed direction `sx`/`sy`; every intensity is 1 |
| Lines.BresenhamLine | lab12/first_order_algorithms.py:44-64 | the line starts at the start pixel with intensity 1 |
| Lines.BresenhamTurn | lab12/first_order_algorithms.py:57-63 | the loop's state follows the walk: the next state is valid and the walk drawn from it is the rest |
| Lines.Bresenham | lab12/first_order_algorithms.py:44-64 | the line starts on `(x1, y1)` and ends on `(x2, y2)`, every pixel at intensity 1; each step moves 0 or 1 along each axis, only in the direction `sx`/`sy`, and never stands still; every pixel lies in the box spanned by the two end points; it has between max(abs(dx), abs(dy)) + 1 and abs(dx) + abs(dy) + 1 pixels |
| Lines.BresenhamLineShape | lab12/first_order_algorithms.py:44-64 | for the pure line: its end pixels, steps of 0 or 1 in the direction `sx`/`sy` on each axis, never standing still, every intensity 1, and the length bounds |
| Lines.ChainMonotone | lab12/first_order_algorithms.py:49-63 | along a chain each coordinate moves one way only: a later pixel is never behind an earlier one in the direction `sx` (resp. `sy`) |
| Lines.ChainBetween | lab12/first_order_algorithms.py:49-63 | a chain from the start pixel to the end pixel stays inside the box the two span: no pixel overshoots the end or falls behind the start |
| Lines.BresenhamExample | lab12/first_order_algorithms.py:44-64 | from (0,0) to (5,2) the pixels are (0,0), (1,0), (2,1), (3,1), (4,2), (5,2) |
| Lines.WuSetup | lab12/first_order_algorithms.py:70-80 | steep iff the y extent exceeds the x extent; after the swaps the end points are ordered along the major axis and are the inputs, swapped back for steep lines; the gradient is 1 for a zero major extent and otherwise the slope, within [-1, 1] |
| Lines.WuGradient | lab12/first_order_algorithms.py:78-80 | the gradient times the major extent is the minor extent, and it is 1 when the major extent is zero |
| Lines.WuHeightOnLine | lab12/first_order_algorithms.py:94-111 | after k interior columns, `intery` is the first end's height plus k + 1 gradients |
| Lines.WuPairCoverage | lab12/first_order_algorithms.py:104-111 | a pair's two intensities lie in [0, 1] and add up to its gap, which is 1 for interior columns |
| Lines.WuPairAdjacent | lab12/first_order_algorithms.py:88-93 | a pair's pixels share the major coordinate and are adjacent on the minor axis; steep lines swap the coordinates back |
| Lines.WuGaps | lab12/first_order_algorithms.py:83-99 | both end gaps lie in [0, 1] |
| Lines.WuColumn | lab12/first_order_algorithms.py:104-111 | one interior column appends its pair at the running height and advances it by the gradient |
| Lines.WuColumns | lab12/first_order_algorithms.py:103-111 | two pixels per interior column, at heights following the line, intensities in [0, 1] |
| Lines.WuPoints | lab12/first_order_algorithms.py:82-118 | 4 + 2·(interior columns) pixels: the first end pair, one pair per interior column, the last end pair; intensities in [0, 1] |
| Lines.Wu | lab12/first_order_algorithms.py:67-119 | the same, stated for the raw end points |
| Conics.EightWayClosed | lab12/second_order_algorithms.py:14-23 | mirroring one of the eight images gives another of them |
| Conics.AddNew | lab12/second_order_algorithms.py:24-26 | the list grows by the new points only, keeps its prefix, and stays duplicate-free |
| Conics.DecisionStep | lab12/second_order_algorithms.py:30-34 | both decision updates keep the decision variable equal to the midpoint residual of the next column |
| Conics.CircleMove | lab12/second_order_algorithms.py:30-35 | each turn moves x right by one and y down by at most one, keeping the decision invariant |
| Conics.EightWayOnCircle | lab12/second_order_algorithms.py:13-23 | when (x, y) is the nearest height for column x, all eight images are nearest-pixel points of the circle |
| Conics.OctantBounds | lab12/second_order_algorithms.py:13-29 | every added point has intensity 1 and lies within r of the centre on both axes |
| Conics.OctantOnCircle | lab12/second_order_algorithms.py:28-35 | adding a column's images keeps every point on the circle |
| Conics.OctantSymmetric | lab12/second_order_algorithms.py:13-29 | adding a column's images keeps the list closed under the eight reflections |
| Conics.OctantInv | lab12/second_order_algorithms.py:28-35 | adding a column's images keeps the points-list invariant |
| Conics.ColumnAdded | lab12/second_order_algorithms.py:28-35 | after column x, every nearest pixel of the columns up to x is drawn |
| Conics.AddOctant | lab12/second_order_algorithms.py:29 | one call of `add_circle_points` keeps the invariant and completes one more column |
| Conics.NearestUnique | lab12/second_order_algorithms.py:28-35 | each column has at most one nearest height |
| Conics.NoColumnBeyond | lab12/second_order_algorithms.py:28 | once y < x, no column right of x has a nearest height in the octant, so stopping at x > y misses nothing |
| Conics.CircleExact | lab12/second_order_algorithms.py:28-36 | for r >= 1 the points are exactly the nearest-pixel points of the circle |
| Conics.OnCircleDrawn | lab12/second_order_algorithms.py:13-35 | every nearest-pixel point of the circle is drawn |
| Conics.CirclePoints | lab12/second_order_algorithms.py:8-35 | the loop ends with the top point and every octant nearest pixel drawn |
| Conics.SamePixels | lab12/second_order_algorithms.py:36 | sorting keeps the same points and keeps them duplicate-free |
| Conics.Circle | lab12/second_order_algorithms.py:5-37 | no duplicates; sorted by (x, y); closed under the eight reflections; contains the top point; every point has intensity 1 and lies within r; for r >= 1 exactly the circle's nearest pixels; r = 0 gives the centre alone |
| Conics.Semiaxis | lab12/second_order_algorithms.py:45-46 | a zero semi-axis becomes 1, and others are kept |
| Conics.EllipseNext | lab12/second_order_algorithms.py:60-88 | each step moves right, down, or both, and never stays |
| Conics.EllipseWalkShape | lab12/second_order_algorithms.py:53-88 | the walk starts at its first point and ends on the centre row; x never decreases, y never increases, and no point repeats consecutively |
| Conics.QuadsGroups | lab12/second_order_algorithms.py:54-59 | each walk point contributes its four mirror images, in order |
| Conics.QuadsSymmetric | lab12/second_order_algorithms.py:54-78 | the points are closed under both axis reflections through the centre, with intensity 1 |
| Conics.EllipseOutline | lab12/second_order_algorithms.py:40-89 | the output starts with the images of (0, b), ends with images on the centre row, comes in groups of four mirror images, and is symmetric |
| Conics.EllipseExample | lab12/second_order_algorithms.py:40-89 | semi-axes 2 and 1 visit (0,1), (1,1), (2,0) |
| Conics.DecisionStarts | lab12/second_order_algorithms.py:49-71 | the initial values of d1 and d2 are the midpoint residuals of their first decisions |
| Conics.DecisionUpdates | lab12/second_order_algorithms.py:60-88 | each update of d1 and d2 moves the residual to the next midpoint |
| Conics.Region1Moves | lab12/second_order_algorithms.py:60-69 | region 1 steps right, or right and down, as d1 says, and keeps y >= 1 |
| Conics.Region1Step | lab12/second_order_algorithms.py:53-69 | one region-1 turn follows the walk and shrinks dy - dx, so the region ends |
| Conics.Region2Moves | lab12/second_order_algorithms.py:79-88 | region 2 steps down, or right and down, as d2 says |
| Conics.Region2Step | lab12/second_order_algorithms.py:71-88 | one region-2 turn follows the walk and lowers y by one, so the region ends |
| Conics.Ellipse | lab12/second_order_algorithms.py:40-89 | the two loops draw the four-way images of the whole walk, in order |

## Left out

- Floating-point rounding: every float is an exact real. Results that depend on binary rounding are not modelled, such as DDA's accumulated increments or the 1e-10 parallel test on values near the threshold.
- The radius computation `int(round(math.sqrt(...)))` of `compute_circle_points` (lab12/second_order_algorithms.py:7) is not modelled: it needs a square root and banker's rounding. The integer radius is an input.
- The ellipse semi-axes are integer inputs, so `int(round(abs(ex - cx)))` (lab12/second_order_algorithms.py:43-44) is not modelled. Mouse clicks give integer coordinates there.
- `compute_hyperbola_points` and `compute_parabola_points` are not modelled: they rely on `math.sqrt`.
- The hex string formatting of `intensity_to_hex` is not modelled; only its integer gray level is.
- `canvas.create_line`, `canvas.update()` and `canvas.after(delay)` are not modelled: drawing becomes a returned run, and the refresh timing of the debug fills becomes frame boundaries.
- The interface files (tkinter widgets, mouse and keyboard handling, step-by-step replay) and the other labs (curves, 3D transforms, Delaunay/Voronoi) are not modelled: they are user interface, file input or numeric library code.
- Hull.ConvexHullJarvis: the `while True` loop has no bound, so the model takes a fuel bound. A run needing more steps than the fuel returns `OutOfFuel`, and the results are stated only for runs that finish within it. When at least three points all coincide, the source calls `cross` with `None` and raises a TypeError. The model returns `Degenerate` for that case.
- Hull.DistSq: states only that the squared distance is non-negative and zero for equal points, not its value.
- Intersection.DiagonalsMeetAtCentre: stated for the square [0, a]² with a >= 1 rather than for every square.
- FillAgreement.ActiveMatchesOrdered: proved only for polygons whose vertex heights are whole numbers, which is what canvas clicks give. With fractional heights the active list starts an edge on row `int(ymin)` at the vertex's own x, so the two fills can differ.
- The active edge list stores the same dictionaries as the edge table and updates their `x` in place. The model keeps edges as values. Each entry is admitted once and never read from the table again, so nothing observable depends on the sharing.
- Geometry.MinX, Geometry.MaxY and the fills that take the vertex bounds require a non-empty vertex list. There, Python's `min()`/`max()` raise `ValueError` on an empty list, which the model does not reproduce.
- The seed fills convert the seed point with `int()` (`SeedFill.SeedStart`). Their results are stated for that integer seed pixel.
