/**
 Bresenham line drawing and the closed polygon outline of the `Line` trait
 (`src/line_impl.rs`). A line is modelled as the trace of coordinates its loop
 visits; drawing it plots the trace with clipping.
 */
module LineImpl {
  import opened Ints
  import opened Framebuffer
  import opened Raster

  /** The rounded endpoints of one `line(start, end)` call. */
  datatype Segment = Segment(x1: int, y1: int, x2: int, y2: int)

  /** The loop state of the Bresenham loop. */
  datatype Cursor = Cursor(x: int, y: int, err: int)

  function Dx(l: Segment): nat { Abs(l.x2 - l.x1) }
  /** The source's `dy`, which is never positive. */
  function Dy(l: Segment): int { -(Abs(l.y2 - l.y1) as int) }
  function Sx(l: Segment): int { if l.x1 < l.x2 then 1 else -1 }
  function Sy(l: Segment): int { if l.y1 < l.y2 then 1 else -1 }

  function SegmentOf(start: Vertex, end: Vertex): Segment {
    Segment(start.x, start.y, end.x, end.y)
  }

  function Start(l: Segment): Cursor {
    Cursor(l.x1, l.y1, Dx(l) + Dy(l))
  }

  /** Number of `sx` steps taken from `x1`, and of `sy` steps taken from `y1`. */
  function StepsX(l: Segment, c: Cursor): int {
    if Sx(l) == 1 then c.x - l.x1 else l.x1 - c.x
  }
  function StepsY(l: Segment, c: Cursor): int {
    if Sy(l) == 1 then c.y - l.y1 else l.y1 - c.y
  }

  /**
   The states the loop can reach, in terms of the step counters: `i` steps along x
   and `j` along y taken, neither past its endpoint (`dx` and `dY = -dy` steps), and
   the error term equal to `dx*(j+1) + dy*(i+1)`.
   */
  predicate Reach(dx: int, dY: int, i: int, j: int, err: int) {
    && 0 <= i <= dx
    && 0 <= j <= dY
    && err == dx * (j + 1) - dY * (i + 1)
  }

  predicate OnWalk(l: Segment, c: Cursor) {
    Reach(Dx(l), -Dy(l), StepsX(l, c), StepsY(l, c), c.err)
  }

  predicate AtEnd(l: Segment, c: Cursor) {
    c.x == l.x2 && c.y == l.y2
  }

  /** One iteration of the loop body after the plot and the end test. */
  function Step(l: Segment, c: Cursor): Cursor {
    var e2 := 2 * c.err;
    var c1 := if e2 >= Dy(l) then Cursor(c.x + Sx(l), c.y, c.err + Dy(l)) else c;
    if e2 <= Dx(l) then Cursor(c1.x, c1.y + Sy(l), c1.err + Dx(l)) else c1
  }

  /** The distance still to walk; it strictly decreases with every step. */
  function Remaining(l: Segment, c: Cursor): nat {
    Abs(l.x2 - c.x) + Abs(l.y2 - c.y)
  }

  /** Two consecutive trace points: x moves by 0 or `sx`, y by 0 or `sy`, and not both by 0. */
  predicate Adjacent(l: Segment, p: Coord, q: Coord) {
    && (q.x == p.x || q.x == p.x + Sx(l))
    && (q.y == p.y || q.y == p.y + Sy(l))
    && p != q
  }

  /** Every two consecutive points of `t` are adjacent. */
  predicate Connected(l: Segment, t: seq<Coord>) {
    forall k :: 0 <= k < |t| - 1 ==> Adjacent(l, t[k], t[k + 1])
  }

  /** Every step of `t` is the same offset `(ax, ay)`. */
  predicate Uniform(t: seq<Coord>, ax: int, ay: int) {
    forall k :: 0 <= k < |t| - 1 ==> t[k + 1] == Coord(t[k].x + ax, t[k].y + ay)
  }

  lemma StartOnWalk(l: Segment)
    ensures OnWalk(l, Start(l))
  {
  }

  /** Once x has arrived while y has not, the x test `e2 >= dy` fails. */
  lemma {:induction false} XStopsAtEnd(dx: int, dY: int, j: int)
    requires 0 <= dx && 0 <= j < dY
    ensures 2 * (dx * (j + 1) - dY * (dx + 1)) < -dY
  {
    MulLe(j + 1, dY, dx);
  }

  /** Once y has arrived while x has not, the y test `e2 <= dx` fails. */
  lemma {:induction false} YStopsAtEnd(dx: int, dY: int, i: int)
    requires 0 <= dY && 0 <= i < dx
    ensures 2 * (dx * (dY + 1) - dY * (i + 1)) > dx
  {
    MulLe(i + 1, dx, dY);
  }

  /**
   The arithmetic of one iteration in terms of the step counters: at least one
   test fires, a firing test never overshoots, and the new state is reachable.
   */
  lemma {:induction false} CounterStep(dx: int, dY: int, i: int, j: int, err: int)
    requires Reach(dx, dY, i, j, err) && (i < dx || j < dY)
    ensures 2 * err >= -dY || 2 * err <= dx
    ensures 2 * err >= -dY ==> i < dx
    ensures 2 * err <= dx ==> j < dY
    ensures var xs, ys := 2 * err >= -dY, 2 * err <= dx;
      Reach(dx, dY, if xs then i + 1 else i, if ys then j + 1 else j,
            err + (if xs then -dY else 0) + (if ys then dx else 0))
  {
    if i == dx {
      XStopsAtEnd(dx, dY, j);
    }
    if j == dY {
      YStopsAtEnd(dx, dY, i);
    }
    assert dY * (i + 2) == dY * (i + 1) + dY;
    assert dx * (j + 2) == dx * (j + 1) + dx;
  }

  /** The distance left is the number of counter steps still to take. */
  lemma RemainingSteps(l: Segment, c: Cursor)
    requires 0 <= StepsX(l, c) <= Dx(l) && 0 <= StepsY(l, c) <= -Dy(l)
    ensures Remaining(l, c) == (Dx(l) - StepsX(l, c)) + (-Dy(l) - StepsY(l, c))
  {
  }

  /** How `Step` moves the counters and the error term, read off its two tests. */
  lemma StepCounters(l: Segment, c: Cursor)
    ensures var xs, ys := 2 * c.err >= Dy(l), 2 * c.err <= Dx(l);
      && StepsX(l, Step(l, c)) == StepsX(l, c) + (if xs then 1 else 0)
      && StepsY(l, Step(l, c)) == StepsY(l, c) + (if ys then 1 else 0)
      && Step(l, c).x == c.x + (if xs then Sx(l) else 0)
      && Step(l, c).y == c.y + (if ys then Sy(l) else 0)
      && Step(l, c).err == c.err + (if xs then Dy(l) else 0) + (if ys then Dx(l) else 0)
  {
  }

  /** A step from a reachable, unfinished state stays reachable, and a firing test never overshoots. */
  lemma {:induction false} StepOnWalk(l: Segment, c: Cursor)
    requires OnWalk(l, c) && !AtEnd(l, c)
    ensures OnWalk(l, Step(l, c))
    ensures 2 * c.err >= Dy(l) || 2 * c.err <= Dx(l)
    ensures 2 * c.err >= Dy(l) ==> StepsX(l, c) < Dx(l)
    ensures 2 * c.err <= Dx(l) ==> StepsY(l, c) < -Dy(l)
  {
    var i, j := StepsX(l, c), StepsY(l, c);
    var dx: int, dY: int := Dx(l), -Dy(l);
    assert i < dx || j < dY by {
      assert l.x2 == l.x1 + (if Sx(l) == 1 then dx else -dx);
      assert l.y2 == l.y1 + (if Sy(l) == 1 then dY else -dY);
    }
    CounterStep(dx, dY, i, j, c.err);
    StepCounters(l, c);
  }

  /** A step moves to an adjacent point and strictly closer to the endpoint. */
  lemma {:induction false} StepProgress(l: Segment, c: Cursor)
    requires OnWalk(l, c) && !AtEnd(l, c)
    ensures OnWalk(l, Step(l, c))
    ensures Adjacent(l, Coord(c.x, c.y), Coord(Step(l, c).x, Step(l, c).y))
    ensures Remaining(l, Step(l, c)) < Remaining(l, c)
  {
    StepOnWalk(l, c);
    StepCounters(l, c);
    var n := Step(l, c);
    var i, j, i', j' := StepsX(l, c), StepsY(l, c), StepsX(l, n), StepsY(l, n);
    assert i <= i' && j <= j' && i + j < i' + j';
    RemainingSteps(l, c);
    RemainingSteps(l, n);
  }

  /**
   The coordinates the Bresenham loop visits from state `c`, in order: the point
   of every iteration, up to and including the endpoint.
   */
  function Walk(l: Segment, c: Cursor): (t: seq<Coord>)
    requires OnWalk(l, c)
    ensures |t| >= 1 && t[0] == Coord(c.x, c.y) && t[|t| - 1] == Coord(l.x2, l.y2)
    ensures Connected(l, t)
    ensures |t| - 1 >= Abs(l.x2 - c.x) && |t| - 1 >= Abs(l.y2 - c.y)
    ensures forall k :: 0 <= k < |t| ==> Between(c.x, t[k].x, l.x2) && Between(c.y, t[k].y, l.y2)
    decreases Remaining(l, c)
  {
    if AtEnd(l, c) then [Coord(c.x, c.y)]
    else
      StepProgress(l, c);
      [Coord(c.x, c.y)] + Walk(l, Step(l, c))
  }

  /** The whole trace of `line(start, end)`. */
  function Trace(l: Segment): (t: seq<Coord>)
    ensures |t| >= 1 && t[0] == Coord(l.x1, l.y1) && t[|t| - 1] == Coord(l.x2, l.y2)
    ensures Connected(l, t)
    ensures forall k :: 0 <= k < |t| ==> Between(l.x1, t[k].x, l.x2) && Between(l.y1, t[k].y, l.y2)
  {
    StartOnWalk(l);
    Walk(l, Start(l))
  }

  lemma DistanceLeft(l: Segment, c: Cursor)
    requires OnWalk(l, c)
    ensures Abs(l.x2 - c.x) == Dx(l) - StepsX(l, c)
    ensures Abs(l.y2 - c.y) == -Dy(l) - StepsY(l, c)
  {
  }

  /**
   When x is the major axis (`|dy| <= dx`) and the x test holds, it keeps holding:
   every iteration steps x, so the walk has one point per remaining column.
   */
  lemma {:induction false} WalkMajorX(l: Segment, c: Cursor)
    requires OnWalk(l, c) && -Dy(l) <= Dx(l) && 2 * c.err >= Dy(l)
    ensures |Walk(l, c)| - 1 <= Abs(l.x2 - c.x)
    decreases Remaining(l, c)
  {
    if !AtEnd(l, c) {
      StepProgress(l, c);
      StepOnWalk(l, c);
      StepCounters(l, c);
      var n := Step(l, c);
      DistanceLeft(l, c);
      DistanceLeft(l, n);
      WalkMajorX(l, n);
    }
  }

  /** The mirror image of `WalkMajorX` when y is the major axis. */
  lemma {:induction false} WalkMajorY(l: Segment, c: Cursor)
    requires OnWalk(l, c) && Dx(l) <= -Dy(l) && 2 * c.err <= Dx(l)
    ensures |Walk(l, c)| - 1 <= Abs(l.y2 - c.y)
    decreases Remaining(l, c)
  {
    if !AtEnd(l, c) {
      StepProgress(l, c);
      StepOnWalk(l, c);
      StepCounters(l, c);
      var n := Step(l, c);
      DistanceLeft(l, c);
      DistanceLeft(l, n);
      WalkMajorY(l, n);
    }
  }

  /** The loop runs exactly `max(|x2-x1|, |y2-y1|) + 1` iterations, one plotted point each. */
  lemma TraceLength(l: Segment)
    ensures |Trace(l)| == Max(Dx(l), -Dy(l)) + 1
  {
    StartOnWalk(l);
    if -Dy(l) <= Dx(l) {
      WalkMajorX(l, Start(l));
    } else {
      WalkMajorY(l, Start(l));
    }
  }

  /** A trace whose every step is the same offset `(ax, ay)` is an arithmetic progression. */
  lemma {:induction false} UniformSteps(t: seq<Coord>, ax: int, ay: int)
    requires |t| >= 1
    requires Uniform(t, ax, ay)
    ensures forall k :: 0 <= k < |t| ==> t[k] == Coord(t[0].x + ax * k, t[0].y + ay * k)
    decreases |t|
  {
    if |t| > 1 {
      var u := t[..|t| - 1];
      UniformSteps(u, ax, ay);
      var m := |t| - 1;
      assert t[m] == Coord(t[m - 1].x + ax, t[m - 1].y + ay);
      assert ax * m == ax * (m - 1) + ax && ay * m == ay * (m - 1) + ay;
    }
  }

  /** A horizontal line (`y1 == y2`) visits `x1, x1+sx, ..., x2` on row `y1`, one point per column. */
  lemma HorizontalSteps(l: Segment)
    requires l.y1 == l.y2
    ensures |Trace(l)| == Dx(l) + 1
    ensures forall k :: 0 <= k < |Trace(l)| ==> Trace(l)[k] == Coord(l.x1 + Sx(l) * k, l.y1)
  {
    var t := Trace(l);
    TraceLength(l);
    forall k | 0 <= k < |t| - 1
      ensures t[k + 1] == Coord(t[k].x + Sx(l), t[k].y + 0)
    {
      assert Adjacent(l, t[k], t[k + 1]);
    }
    UniformSteps(t, Sx(l), 0);
  }

  /** A horizontal line visits exactly the points of its row between the endpoints. */
  lemma HorizontalTrace(l: Segment)
    requires l.y1 == l.y2
    ensures forall p: Coord {:trigger p in Trace(l)} :: p in Trace(l) <==> p.y == l.y1 && Between(l.x1, p.x, l.x2)
  {
    var t := Trace(l);
    HorizontalSteps(l);
    forall p: Coord | p.y == l.y1 && Between(l.x1, p.x, l.x2)
      ensures p in t
    {
      var k := Abs(p.x - l.x1);
      assert Sx(l) * k == p.x - l.x1;
      assert t[k] == p;
    }
  }

  /** A vertical line (`x1 == x2`) visits `y1, y1+sy, ..., y2` on column `x1`, one point per row. */
  lemma VerticalSteps(l: Segment)
    requires l.x1 == l.x2
    ensures |Trace(l)| == -Dy(l) + 1
    ensures forall k :: 0 <= k < |Trace(l)| ==> Trace(l)[k] == Coord(l.x1, l.y1 + Sy(l) * k)
  {
    var t := Trace(l);
    TraceLength(l);
    forall k | 0 <= k < |t| - 1
      ensures t[k + 1] == Coord(t[k].x + 0, t[k].y + Sy(l))
    {
      assert Adjacent(l, t[k], t[k + 1]);
    }
    UniformSteps(t, 0, Sy(l));
  }

  /** A vertical line visits exactly the points of its column between the endpoints. */
  lemma VerticalTrace(l: Segment)
    requires l.x1 == l.x2
    ensures forall p: Coord {:trigger p in Trace(l)} :: p in Trace(l) <==> p.x == l.x1 && Between(l.y1, p.y, l.y2)
  {
    var t := Trace(l);
    VerticalSteps(l);
    forall p: Coord | p.x == l.x1 && Between(l.y1, p.y, l.y2)
      ensures p in t
    {
      var k := Abs(p.y - l.y1);
      assert Sy(l) * k == p.y - l.y1;
      assert t[k] == p;
    }
  }

  /** On a 45-degree line the error term stays 0, so every iteration steps both coordinates. */
  lemma {:induction false} DiagonalWalk(l: Segment, c: Cursor)
    requires OnWalk(l, c) && Dx(l) == -Dy(l) && StepsX(l, c) == StepsY(l, c)
    ensures Uniform(Walk(l, c), Sx(l), Sy(l))
    decreases Remaining(l, c)
  {
    if !AtEnd(l, c) {
      var i := StepsX(l, c);
      assert c.err == Dx(l) * (i + 1) - Dx(l) * (i + 1) == 0;
      StepProgress(l, c);
      StepCounters(l, c);
      var n := Step(l, c);
      DiagonalWalk(l, n);
      var t := Walk(l, c);
      assert t == [Coord(c.x, c.y)] + Walk(l, n);
    }
  }

  /** A 45-degree line (`|x2-x1| == |y2-y1|`) visits exactly its diagonal, one point per column. */
  lemma DiagonalTrace(l: Segment)
    requires Dx(l) == -Dy(l)
    ensures |Trace(l)| == Dx(l) + 1
    ensures forall k :: 0 <= k < |Trace(l)| ==> Trace(l)[k] == Coord(l.x1 + Sx(l) * k, l.y1 + Sy(l) * k)
  {
    TraceLength(l);
    StartOnWalk(l);
    DiagonalWalk(l, Start(l));
    assert Trace(l) == Walk(l, Start(l));
    UniformSteps(Trace(l), Sx(l), Sy(l));
  }

  /** `line(start, end)`: the Bresenham trace plotted with clipping, in visiting order. */
  function DrawLine(fb: Framebuffer, start: Vertex, end: Vertex): (r: Framebuffer)
    requires Valid(fb)
    ensures Valid(r) && SameState(fb, r)
    ensures forall x, y {:trigger At(r, x, y)} :: InBounds(fb, x, y) ==>
      At(r, x, y) == if Coord(x, y) in Trace(SegmentOf(start, end)) then fb.current_color else At(fb, x, y)
  {
    PlotClipped(fb, Trace(SegmentOf(start, end)))
  }

  /** Plotting the walk from the endpoint plots that one point. */
  lemma PlotWalkEnd(fb: Framebuffer, l: Segment, c: Cursor)
    requires Valid(fb) && OnWalk(l, c) && AtEnd(l, c)
    ensures PlotClipped(fb, Walk(l, c)) == PlotOne(fb, Coord(c.x, c.y))
  {
    PlotClippedCons(fb, Coord(c.x, c.y), []);
  }

  /** Plotting the walk from `c` is plotting its first point, then the walk from the next state. */
  lemma PlotWalkStep(fb: Framebuffer, l: Segment, c: Cursor)
    requires Valid(fb) && OnWalk(l, c) && !AtEnd(l, c)
    ensures OnWalk(l, Step(l, c)) && Remaining(l, Step(l, c)) < Remaining(l, c)
    ensures PlotClipped(fb, Walk(l, c)) == PlotClipped(PlotOne(fb, Coord(c.x, c.y)), Walk(l, Step(l, c)))
  {
    StepProgress(l, c);
    PlotClippedCons(fb, Coord(c.x, c.y), Walk(l, Step(l, c)));
  }

  /**
   The second half of the loop body: the two error-term tests, both on the old
   `e2`, each moving one coordinate. The new cursor is the next state of the
   trace. From a reachable state short of the end it stays reachable, so no test
   overshoots, and it gets strictly closer to the end, so the loop terminates.
   */
  method Advance(ghost l: Segment, x0: int, y0: int, err0: int, dx: int, dy: int, sx: int, sy: int)
    returns (x: int, y: int, err: int)
    requires dx == Dx(l) && dy == Dy(l) && sx == Sx(l) && sy == Sy(l)
    ensures Cursor(x, y, err) == Step(l, Cursor(x0, y0, err0))
    ensures OnWalk(l, Cursor(x0, y0, err0)) && !AtEnd(l, Cursor(x0, y0, err0)) ==>
      && OnWalk(l, Cursor(x, y, err))
      && Remaining(l, Cursor(x, y, err)) < Remaining(l, Cursor(x0, y0, err0))
  {
    x, y, err := x0, y0, err0;
    var e2 := 2 * err;
    if e2 >= dy {
      err := err + dy;
      x := x + sx;
    }
    if e2 <= dx {
      err := err + dx;
      y := y + sy;
    }
    if OnWalk(l, Cursor(x0, y0, err0)) && !AtEnd(l, Cursor(x0, y0, err0)) {
      StepProgress(l, Cursor(x0, y0, err0));
    }
  }

  method Line(fb: Framebuffer, start: Vertex, end: Vertex) returns (r: Framebuffer)
    requires Valid(fb)
    ensures r == DrawLine(fb, start, end)
  {
    var x1: int, y1: int, x2: int, y2: int := start.x, start.y, end.x, end.y;
    var dx: int := Abs(x2 - x1);
    var sx := if x1 < x2 then 1 else -1;
    var dy: int := -(Abs(y2 - y1) as int);
    var sy := if y1 < y2 then 1 else -1;
    var err := dx + dy;
    var x, y := x1, y1;
    ghost var l := SegmentOf(start, end);
    assert Cursor(x, y, err) == Start(l);
    StartOnWalk(l);
    assert Trace(l) == Walk(l, Start(l));
    r := fb;
    while true
      invariant Valid(r) && SameState(fb, r)
      invariant OnWalk(l, Cursor(x, y, err))
      invariant PlotClipped(r, Walk(l, Cursor(x, y, err))) == DrawLine(fb, start, end)
      decreases Remaining(l, Cursor(x, y, err))
    {
      ghost var c := Cursor(x, y, err);
      ghost var before := r;
      r := PlotOne(r, Coord(x, y));
      if x == x2 && y == y2 {
        PlotWalkEnd(before, l, c);
        break;
      }
      x, y, err := Advance(l, x, y, err, dx, dy, sx, sy);
      PlotWalkStep(before, l, c);
    }
  }

  /** The end vertex of edge `i` as the loop picks it: the next vertex, or the first one after the last. */
  function EdgeEnd(vs: seq<Vertex>, i: nat): (v: Vertex)
    requires i < |vs|
    ensures v == vs[(i + 1) % |vs|]
  {
    if i == |vs| - 1 then vs[0] else vs[i + 1]
  }

  function EdgeTrace(vs: seq<Vertex>, i: nat): seq<Coord>
    requires i < |vs|
  {
    Trace(SegmentOf(vs[i], EdgeEnd(vs, i)))
  }

  /** `(x, y)` lies on the trace of one of the edges `from .. |vs|-1` of the closed outline. */
  predicate OnOutline(vs: seq<Vertex>, from: nat, x: int, y: int) {
    exists i :: from <= i < |vs| && Coord(x, y) in EdgeTrace(vs, i)
  }

  /** The `for i in 0..vertices.len()` loop of the outline, from edge `i` on. */
  function DrawEdges(fb: Framebuffer, vs: seq<Vertex>, i: nat): (r: Framebuffer)
    requires Valid(fb) && i <= |vs|
    ensures Valid(r) && SameState(fb, r)
    ensures forall x, y {:trigger At(r, x, y)} :: InBounds(fb, x, y) ==>
      At(r, x, y) == if OnOutline(vs, i, x, y) then fb.current_color else At(fb, x, y)
    decreases |vs| - i
  {
    if i == |vs| then fb
    else
      var r := DrawEdges(DrawLine(fb, vs[i], EdgeEnd(vs, i)), vs, i + 1);
      OutlineSplit(vs, i);
      r
  }

  lemma OutlineSplit(vs: seq<Vertex>, i: nat)
    requires i < |vs|
    ensures forall x, y {:trigger OnOutline(vs, i, x, y)} :: OnOutline(vs, i, x, y) <==> Coord(x, y) in EdgeTrace(vs, i) || OnOutline(vs, i + 1, x, y)
  {
    forall x, y | OnOutline(vs, i, x, y)
      ensures Coord(x, y) in EdgeTrace(vs, i) || OnOutline(vs, i + 1, x, y)
    {
      var k :| i <= k < |vs| && Coord(x, y) in EdgeTrace(vs, k);
      if k > i {
        assert OnOutline(vs, i + 1, x, y);
      }
    }
  }

  /** The coordinates the outline loop hands to `line`'s plot, edge `i` first, then edges `i+1 .. n-1`. */
  function OutlineTrace(vs: seq<Vertex>, i: nat): seq<Coord>
    requires i <= |vs|
    decreases |vs| - i
  {
    if i == |vs| then [] else EdgeTrace(vs, i) + OutlineTrace(vs, i + 1)
  }

  /** Drawing the edges one `line` call after another is plotting their traces concatenated in loop order. */
  lemma {:induction false} DrawEdgesIsPlot(fb: Framebuffer, vs: seq<Vertex>, i: nat)
    requires Valid(fb) && i <= |vs|
    ensures DrawEdges(fb, vs, i) == PlotClipped(fb, OutlineTrace(vs, i))
    decreases |vs| - i
  {
    if i < |vs| {
      var first := DrawLine(fb, vs[i], EdgeEnd(vs, i));
      assert first == PlotClipped(fb, EdgeTrace(vs, i));
      DrawEdgesIsPlot(first, vs, i + 1);
      PlotClippedAppend(fb, EdgeTrace(vs, i), OutlineTrace(vs, i + 1));
    }
  }

  /** `Line::draw_polygon`: nothing for fewer than 2 vertices, else the `n` closed-loop edges. */
  function DrawPolygon(fb: Framebuffer, vs: seq<Vertex>): (r: Framebuffer)
    requires Valid(fb)
    ensures Valid(r) && SameState(fb, r)
    ensures |vs| < 2 ==> r == fb
    ensures |vs| >= 2 ==> forall x, y {:trigger At(r, x, y)} :: InBounds(fb, x, y) ==>
      At(r, x, y) == if OnOutline(vs, 0, x, y) then fb.current_color else At(fb, x, y)
  {
    if |vs| < 2 then fb else DrawEdges(fb, vs, 0)
  }

  /** Edge `i` starts at vertex `i` and ends at vertex `i+1`, wrapping round: the outline passes through every vertex and is closed. */
  lemma OutlineThroughVertices(vs: seq<Vertex>)
    requires |vs| >= 1
    ensures forall i :: 0 <= i < |vs| ==> OnOutline(vs, 0, vs[i].x, vs[i].y)
    ensures EdgeEnd(vs, |vs| - 1) == vs[0]
  {
    forall i | 0 <= i < |vs|
      ensures OnOutline(vs, 0, vs[i].x, vs[i].y)
    {
      assert EdgeTrace(vs, i)[0] == Coord(vs[i].x, vs[i].y);
    }
  }
}
