/**
 The polygon routines of the demo program (`src/main.rs`): `draw_polygon`, the
 closed outline with a three-vertex minimum, and `fill_polygon`, the even-odd
 scanline fill. The fill is modelled as the sequence of coordinates it passes
 to `point`, row by row, with the crossing abscissa computed exactly and then
 rounded as `f32::round` rounds. Vertices are integer points, so the fill is
 modelled for integer-valued vertices only.
 */
module Polygon {
  import opened Ints
  import opened Framebuffer
  import opened Raster
  import opened Sorting
  import LineImpl

  // ---------------------------------------------------------------- outline

  /** `draw_polygon` of the demo: nothing for fewer than 3 vertices, else the closed outline drawn with `Line::line`. */
  function DrawPolygon(fb: Framebuffer, vs: seq<Vertex>): (r: Framebuffer)
    requires Valid(fb)
    ensures Valid(r) && SameState(fb, r)
    ensures |vs| < 3 ==> r == fb
    ensures |vs| >= 3 ==> forall x, y {:trigger At(r, x, y)} :: InBounds(fb, x, y) ==>
      At(r, x, y) == if LineImpl.OnOutline(vs, 0, x, y) then fb.current_color else At(fb, x, y)
  {
    if |vs| < 3 then fb else LineImpl.DrawEdges(fb, vs, 0)
  }

  /**
   The two outline routines differ only in their minimum: from three vertices on
   they draw the same edges, while for a two-vertex input the demo's routine
   draws nothing and `Line::draw_polygon` paints (at least) the first vertex.
   */
  lemma OutlineMinimums(fb: Framebuffer, vs: seq<Vertex>)
    requires Valid(fb)
    ensures |vs| >= 3 ==> DrawPolygon(fb, vs) == LineImpl.DrawPolygon(fb, vs)
    ensures |vs| == 2 ==> DrawPolygon(fb, vs) == fb
    ensures |vs| == 2 && InBounds(fb, vs[0].x, vs[0].y) ==>
      At(LineImpl.DrawPolygon(fb, vs), vs[0].x, vs[0].y) == fb.current_color
  {
    if |vs| == 2 {
      LineImpl.OutlineThroughVertices(vs);
    }
  }

  // ---------------------------------------------------------------- extremes

  function Ys(vs: seq<Vertex>): (ys: seq<int>)
    ensures |ys| == |vs| && forall i :: 0 <= i < |vs| ==> ys[i] == vs[i].y
  {
    seq(|vs|, i requires 0 <= i < |vs| => vs[i].y)
  }

  function Xs(vs: seq<Vertex>): (xs: seq<int>)
    ensures |xs| == |vs| && forall i :: 0 <= i < |vs| ==> xs[i] == vs[i].x
  {
    seq(|vs|, i requires 0 <= i < |vs| => vs[i].x)
  }

  /** `fold(f32::INFINITY, f32::min)`: the least element, found left to right. */
  function Least(s: seq<int>): (m: int)
    requires |s| > 0
    ensures forall i :: 0 <= i < |s| ==> m <= s[i]
    ensures m in s
  {
    if |s| == 1 then s[0]
    else
      var m := Least(s[..|s| - 1]);
      assert m in s by {
        assert s == s[..|s| - 1] + [s[|s| - 1]];
      }
      if s[|s| - 1] < m then s[|s| - 1] else m
  }

  /** `fold(f32::NEG_INFINITY, f32::max)`: the greatest element, found left to right. */
  function Greatest(s: seq<int>): (m: int)
    requires |s| > 0
    ensures forall i :: 0 <= i < |s| ==> s[i] <= m
    ensures m in s
  {
    if |s| == 1 then s[0]
    else
      var m := Greatest(s[..|s| - 1]);
      assert m in s by {
        assert s == s[..|s| - 1] + [s[|s| - 1]];
      }
      if m < s[|s| - 1] then s[|s| - 1] else m
  }

  function MinY(vs: seq<Vertex>): int
    requires |vs| > 0
  {
    Least(Ys(vs))
  }

  function MaxY(vs: seq<Vertex>): int
    requires |vs| > 0
  {
    Greatest(Ys(vs))
  }

  /** Some vertex attains the least row and some the greatest. */
  lemma LowestHighest(vs: seq<Vertex>) returns (i: nat, j: nat)
    requires |vs| > 0
    ensures i < |vs| && vs[i].y == MinY(vs)
    ensures j < |vs| && vs[j].y == MaxY(vs)
  {
    var ys := Ys(vs);
    i :| i < |ys| && ys[i] == Least(ys);
    j :| j < |ys| && ys[j] == Greatest(ys);
  }

  /** Every extreme is a vertex coordinate, so it is an `isize` and bounds every vertex. */
  lemma Extremes(vs: seq<Vertex>)
    requires |vs| > 0
    ensures IsIsize(MinY(vs)) && IsIsize(MaxY(vs)) && IsIsize(Least(Xs(vs))) && IsIsize(Greatest(Xs(vs)))
    ensures forall i :: 0 <= i < |vs| ==> MinY(vs) <= vs[i].y <= MaxY(vs)
    ensures forall i :: 0 <= i < |vs| ==> Least(Xs(vs)) <= vs[i].x <= Greatest(Xs(vs))
  {
    var ys, xs := Ys(vs), Xs(vs);
    var i :| 0 <= i < |ys| && ys[i] == Least(ys);
    var j :| 0 <= j < |ys| && ys[j] == Greatest(ys);
    var k :| 0 <= k < |xs| && xs[k] == Least(xs);
    var m :| 0 <= m < |xs| && xs[m] == Greatest(xs);
  }

  // ---------------------------------------------------------------- crossings

  /** Vertex `v` lies at or above row `y` on screen (y grows downwards), i.e. `v.y <= y`. */
  predicate AtOrAbove(v: Vertex, y: int) {
    v.y <= y
  }

  /**
   The half-open crossing test of the fill: one end of the edge at or before row
   `y`, the other strictly after it. A crossing edge is never horizontal, so the
   division that follows never divides by zero.
   */
  function Crosses(s: Vertex, e: Vertex, y: int): (b: bool)
    ensures b ==> s.y != e.y
    ensures b <==> AtOrAbove(s, y) != AtOrAbove(e, y)
  {
    (s.y <= y && e.y > y) || (e.y <= y && s.y > y)
  }

  /** `q` is a rounding of `n / d` to the nearest integer, halfway cases away from zero (`f32::round`). */
  predicate RoundsQuotient(n: int, d: int, q: int)
    requires d != 0
  {
    && 2 * Abs(q * d - n) <= Abs(d)
    && (2 * Abs(q * d - n) == Abs(d) ==> Abs(q * d) > Abs(n))
  }

  /** Rounding of `n / d` for a positive divisor and a non-negative dividend: halfway cases round up. */
  function RoundUp(n: nat, d: int): (q: nat)
    requires d > 0
    ensures 2 * (q * d - n) <= d && 2 * (n - q * d) < d
  {
    var q := (2 * n + d) / (2 * d);
    RoundUpBounds(n, d, q, (2 * n + d) % (2 * d));
    q
  }

  lemma {:induction false} RoundUpBounds(n: nat, d: int, q: int, r: int)
    requires d > 0 && q * (2 * d) + r == 2 * n + d && 0 <= r < 2 * d
    ensures q >= 0 && 2 * (q * d - n) <= d && 2 * (n - q * d) < d
  {
    assert q * (2 * d) == 2 * (q * d);
    if q < 0 {
      MulLe(q, -1, 2 * d);
      assert false;
    }
  }

  lemma MulNeg(a: int, b: int)
    ensures a * -b == -(a * b) && -a * b == -(a * b)
  {
  }

  /** Rounding of `n / d` for a positive divisor: round the magnitude, keep the sign. */
  function RoundSigned(n: int, d: int): (q: int)
    requires d > 0
    ensures RoundsQuotient(n, d, q)
  {
    if n >= 0 then
      var q: int := RoundUp(n, d);
      MulLe(0, q, d);
      q
    else
      var q: int := RoundUp(-n, d);
      MulLe(0, q, d);
      MulNeg(q, d);
      -q
  }

  /** Negating both operands leaves the quotient and so its rounding unchanged. */
  lemma QuotientNegate(n: int, d: int, q: int)
    requires d != 0 && RoundsQuotient(-n, -d, q)
    ensures RoundsQuotient(n, d, q)
  {
    MulNeg(q, d);
  }

  /** `(n / d).round()` computed exactly: the sign is moved to the dividend, then the quotient is rounded. */
  function RoundDiv(n: int, d: int): (q: int)
    requires d != 0
    ensures RoundsQuotient(n, d, q)
  {
    if d > 0 then RoundSigned(n, d)
    else
      var q := RoundSigned(-n, -d);
      QuotientNegate(n, d, q);
      q
  }

  /**
   The crossing abscissa `start.x + (y - start.y) * (end.x - start.x) / (end.y - start.y)`,
   computed exactly over a common denominator and rounded: the nearest integer to
   the point where the edge meets row `y`, which lies between the edge's end abscissas.
   */
  function CrossingX(s: Vertex, e: Vertex, y: int): (x: int)
    requires Crosses(s, e, y)
    ensures RoundsQuotient(s.x * (e.y - s.y) + (y - s.y) * (e.x - s.x), e.y - s.y, x)
    ensures Between(s.x, x, e.x)
  {
    var x := RoundDiv(s.x * (e.y - s.y) + (y - s.y) * (e.x - s.x), e.y - s.y);
    CrossingBetween(s.x, e.x, y - s.y, e.y - s.y, x);
    x
  }

  /**
   With `t = a / d` in `[0, 1]`, the value `x1 + t * (x2 - x1)` lies between `x1`
   and `x2`, and so does any nearest-integer rounding of it.
   */
  lemma {:induction false} CrossingBetween(x1: int, x2: int, a: int, d: int, q: int)
    requires (0 <= a < d) || (d <= a < 0)
    requires RoundsQuotient(x1 * d + a * (x2 - x1), d, q)
    ensures Between(x1, q, x2)
  {
    if d > 0 {
      CrossingBetweenPos(x1, x2, a, d, q);
    } else {
      MulNeg(x1, d);
      MulNeg(a, x2 - x1);
      QuotientNegate(x1 * -d + -a * (x2 - x1), -d, q);
      CrossingBetweenPos(x1, x2, -a, -d, q);
    }
  }

  lemma {:induction false} CrossingBetweenPos(x1: int, x2: int, a: int, d: int, q: int)
    requires 0 <= a <= d && d > 0
    requires RoundsQuotient(x1 * d + a * (x2 - x1), d, q)
    ensures Between(x1, q, x2)
  {
    var w := x2 - x1;
    var n := x1 * d + a * w;
    assert 2 * Abs(q * d - n) <= d;
    MulAdd(x1, w, d);
    if w >= 0 {
      MulLe(0, a, w);
      MulLe(a, d, w);
      RoundWithin(n, d, q, x1, x2);
    } else {
      MulLe(0, a, -w);
      MulLe(a, d, -w);
      RoundWithin(n, d, q, x2, x1);
    }
  }

  /** A nearest-integer rounding of `n / d` stays within integer bounds of the quotient. */
  lemma {:induction false} RoundWithin(n: int, d: int, q: int, lo: int, hi: int)
    requires d > 0 && lo * d <= n <= hi * d
    requires 2 * Abs(q * d - n) <= d
    ensures lo <= q <= hi
  {
    if q > hi {
      MulLe(hi + 1, q, d);
      MulAdd(hi, 1, d);
      assert false;
    }
    if q < lo {
      MulLe(q, lo - 1, d);
      MulAdd(lo, -1, d);
      assert false;
    }
  }

  // ---------------------------------------------------------------- crossings of one row

  /**
   The crossings of row `y` by edges `0 .. m-1`, in edge order: what the inner
   `for i in 0..vertices.len()` loop has pushed after `m` iterations.
   */
  function EdgeCrossings(vs: seq<Vertex>, y: int, m: nat): (xs: seq<int>)
    requires m <= |vs|
    ensures |xs| <= m
    decreases m
  {
    if m == 0 then []
    else
      var xs := EdgeCrossings(vs, y, m - 1);
      var s, e := vs[m - 1], LineImpl.EdgeEnd(vs, m - 1);
      if Crosses(s, e, y) then xs + [CrossingX(s, e, y)] else xs
  }

  /** The `intersections` list of row `y`, before sorting. */
  function Crossings(vs: seq<Vertex>, y: int): seq<int> {
    EdgeCrossings(vs, y, |vs|)
  }

  /** Every crossing lies within any bounds on the vertex abscissas. */
  lemma {:induction false} CrossingsWithin(vs: seq<Vertex>, y: int, m: nat, lo: int, hi: int)
    requires m <= |vs|
    requires forall i :: 0 <= i < |vs| ==> lo <= vs[i].x <= hi
    ensures forall k :: 0 <= k < |EdgeCrossings(vs, y, m)| ==> lo <= EdgeCrossings(vs, y, m)[k] <= hi
  {
    if m > 0 {
      CrossingsWithin(vs, y, m - 1, lo, hi);
      var prev, s, e := EdgeCrossings(vs, y, m - 1), vs[m - 1], LineImpl.EdgeEnd(vs, m - 1);
      if Crosses(s, e, y) {
        var c := CrossingX(s, e, y);
        assert EdgeCrossings(vs, y, m) == prev + [c];
        WithinAppend(prev, c, lo, hi);
      }
    }
  }

  lemma WithinAppend(xs: seq<int>, c: int, lo: int, hi: int)
    requires forall k :: 0 <= k < |xs| ==> lo <= xs[k] <= hi
    requires lo <= c <= hi
    ensures forall k :: 0 <= k < |xs + [c]| ==> lo <= (xs + [c])[k] <= hi
  {
  }

  /**
   Along the open path `vs[0], …, vs[m]` the number of crossings of row `y` is
   odd exactly when the path ends on the other side of the row from where it starts.
   */
  lemma {:induction false} CrossingParity(vs: seq<Vertex>, y: int, m: nat)
    requires m < |vs|
    ensures |EdgeCrossings(vs, y, m)| % 2 == if AtOrAbove(vs[0], y) == AtOrAbove(vs[m], y) then 0 else 1
  {
    if m > 0 {
      CrossingParity(vs, y, m - 1);
      var e := LineImpl.EdgeEnd(vs, m - 1);
      assert |EdgeCrossings(vs, y, m)| == |EdgeCrossings(vs, y, m - 1)| + if Crosses(vs[m - 1], e, y) then 1 else 0;
      ParityStep(|EdgeCrossings(vs, y, m - 1)|, |EdgeCrossings(vs, y, m)|, AtOrAbove(vs[0], y), AtOrAbove(vs[m - 1], y), AtOrAbove(vs[m], y));
    }
  }

  /** One more edge flips the parity exactly when it changes sides. */
  lemma ParityStep(n0: nat, n: nat, b0: bool, bp: bool, bm: bool)
    requires n0 % 2 == (if b0 == bp then 0 else 1)
    requires n == n0 + (if bp != bm then 1 else 0)
    ensures n % 2 == (if b0 == bm then 0 else 1)
  {
  }

  /** Closing the path brings it back to its first vertex: every row is crossed an even number of times. */
  lemma CrossingsEven(vs: seq<Vertex>, y: int)
    requires |vs| > 0
    ensures |Crossings(vs, y)| % 2 == 0
  {
    var n := |vs|;
    CrossingParity(vs, y, n - 1);
    var e := LineImpl.EdgeEnd(vs, n - 1);
    assert |EdgeCrossings(vs, y, n)| == |EdgeCrossings(vs, y, n - 1)| + if Crosses(vs[n - 1], e, y) then 1 else 0;
    ParityStep(|EdgeCrossings(vs, y, n - 1)|, |EdgeCrossings(vs, y, n)|, AtOrAbove(vs[0], y), AtOrAbove(vs[n - 1], y), AtOrAbove(vs[0], y));
  }

  /** A row that every vertex is on the same side of is crossed by no edge. */
  lemma {:induction false} NoCrossingsBeside(vs: seq<Vertex>, y: int, m: nat)
    requires m <= |vs|
    requires (forall i :: 0 <= i < |vs| ==> AtOrAbove(vs[i], y)) || (forall i :: 0 <= i < |vs| ==> !AtOrAbove(vs[i], y))
    ensures EdgeCrossings(vs, y, m) == []
  {
    if m > 0 {
      NoCrossingsBeside(vs, y, m - 1);
      assert LineImpl.EdgeEnd(vs, m - 1) in vs;
    }
  }

  /** No edge crosses a row at or after the last vertex row, or before the first. */
  lemma NoCrossingsOutside(vs: seq<Vertex>, y: int)
    requires 0 < |vs|
    requires y >= MaxY(vs) || y < MinY(vs)
    ensures Crossings(vs, y) == []
  {
    Extremes(vs);
    NoCrossingsBeside(vs, y, |vs|);
  }

  lemma {:induction false} CrossingsGrow(vs: seq<Vertex>, y: int, m: nat, n: nat)
    requires m <= n <= |vs|
    ensures |EdgeCrossings(vs, y, m)| <= |EdgeCrossings(vs, y, n)|
    decreases n - m
  {
    if m < n {
      CrossingsGrow(vs, y, m, n - 1);
    }
  }

  /** Every row from the first vertex row up to (not including) the last is crossed at least twice. */
  lemma RowHasSpan(vs: seq<Vertex>, y: int)
    requires |vs| > 0 && MinY(vs) <= y < MaxY(vs)
    ensures |Crossings(vs, y)| >= 2
  {
    var i, j := LowestHighest(vs);
    var k := if AtOrAbove(vs[0], y) then j else i;
    CrossingParity(vs, y, k);
    CrossingsGrow(vs, y, k, |vs|);
    CrossingsEven(vs, y);
  }

  // ---------------------------------------------------------------- spans

  /** The integers `a..=b` in increasing order; empty when `a > b`. */
  function Range(a: int, b: int): (r: seq<int>)
    ensures |r| == if a <= b then b - a + 1 else 0
    ensures forall k :: 0 <= k < |r| ==> r[k] == a + k
    decreases b - a
  {
    if a > b then [] else [a] + Range(a + 1, b)
  }

  /** `x` lies on the span from entry `i` to entry `i + 1`, for an even `i`. */
  predicate InPair(s: seq<int>, i: nat, x: int) {
    i % 2 == 0 && i + 1 < |s| && s[i] <= x <= s[i + 1]
  }

  /** `x` lies on one of the spans `s[0]..=s[1]`, `s[2]..=s[3]`, …; a trailing odd entry opens no span. */
  predicate InSpan(s: seq<int>, x: int) {
    exists i: nat :: i < |s| && InPair(s, i, x)
  }

  /** The `for i in (0..len).step_by(2)` loop: each pair's `for x in I[i]..=I[i+1]`, one after another. */
  function SpanXs(s: seq<int>): seq<int>
    decreases |s|
  {
    if |s| < 2 then [] else Range(s[0], s[1]) + SpanXs(s[2..])
  }

  lemma {:induction false} SpanXsCover(s: seq<int>, x: int)
    ensures x in SpanXs(s) <==> InSpan(s, x)
    decreases |s|
  {
    if |s| >= 2 {
      var t := s[2..];
      SpanXsCover(t, x);
      assert SpanXs(s) == Range(s[0], s[1]) + SpanXs(t);
      if InSpan(s, x) {
        var i: nat :| i < |s| && InPair(s, i, x);
        if i >= 2 {
          assert InPair(t, i - 2, x);
        } else {
          assert Range(s[0], s[1])[x - s[0]] == x;
        }
      }
      if x in SpanXs(s) {
        if x in Range(s[0], s[1]) {
          assert InPair(s, 0, x);
        } else {
          var i: nat :| i < |t| && InPair(t, i, x);
          assert InPair(s, i + 2, x);
        }
      }
    }
  }

  // ---------------------------------------------------------------- the fill

  /** The points one row of the fill plots: the spans of the sorted crossings, left to right. */
  function RowPoints(vs: seq<Vertex>, y: int): (pts: seq<Coord>)
    ensures forall k :: 0 <= k < |pts| ==> pts[k].y == y
  {
    var xs := SpanXs(Sort(Crossings(vs, y)));
    seq(|xs|, k requires 0 <= k < |xs| => Coord(xs[k], y))
  }

  /** The outer `for y in min_y..=max_y` loop, from row `lo` on. */
  function FillRows(vs: seq<Vertex>, lo: int, hi: int): (pts: seq<Coord>)
    ensures forall k :: 0 <= k < |pts| ==> lo <= pts[k].y <= hi
    decreases hi - lo
  {
    if lo > hi then [] else RowPoints(vs, lo) + FillRows(vs, lo + 1, hi)
  }

  /** Every coordinate `fill_polygon` hands to `point`, in order. */
  function FillPoints(vs: seq<Vertex>): seq<Coord> {
    if |vs| < 3 then [] else FillRows(vs, MinY(vs), MaxY(vs))
  }

  /**
   The filled region described without the loops: a row from the first vertex
   row up to but excluding the last, and a column on a span between an even-
   and the following odd-numbered crossing of the sorted list.
   */
  predicate InFill(vs: seq<Vertex>, x: int, y: int) {
    |vs| >= 3 && MinY(vs) <= y < MaxY(vs) && InSpan(Sort(Crossings(vs, y)), x)
  }

  lemma RowPointsCover(vs: seq<Vertex>, y: int, x: int, py: int)
    ensures Coord(x, py) in RowPoints(vs, y) <==> py == y && x in SpanXs(Sort(Crossings(vs, y)))
  {
    var xs := SpanXs(Sort(Crossings(vs, y)));
    if py == y && x in xs {
      var k :| 0 <= k < |xs| && xs[k] == x;
      assert RowPoints(vs, y)[k] == Coord(x, y);
    }
  }

  lemma {:induction false} FillRowsCover(vs: seq<Vertex>, lo: int, hi: int, x: int, y: int)
    ensures Coord(x, y) in FillRows(vs, lo, hi) <==> lo <= y <= hi && x in SpanXs(Sort(Crossings(vs, y)))
    decreases hi - lo
  {
    if lo <= hi {
      FillRowsCover(vs, lo + 1, hi, x, y);
      RowPointsCover(vs, lo, x, y);
      assert FillRows(vs, lo, hi) == RowPoints(vs, lo) + FillRows(vs, lo + 1, hi);
    }
  }

  /**
   The fill plots exactly the region `InFill`: in particular the last vertex
   row is visited but has no crossings, so it is never painted.
   */
  lemma FillPointsCover(vs: seq<Vertex>, x: int, y: int)
    ensures Coord(x, y) in FillPoints(vs) <==> InFill(vs, x, y)
  {
    if |vs| >= 3 {
      FillRowsCover(vs, MinY(vs), MaxY(vs), x, y);
      SpanXsCover(Sort(Crossings(vs, y)), x);
      if y == MaxY(vs) {
        NoCrossingsOutside(vs, y);
      }
    }
  }

  /** A filled pixel lies in the bounding box of the vertices, without the last vertex row. */
  lemma FillWithinBox(vs: seq<Vertex>, x: int, y: int)
    requires InFill(vs, x, y)
    ensures MinY(vs) <= y < MaxY(vs) && Least(Xs(vs)) <= x <= Greatest(Xs(vs))
  {
    Extremes(vs);
    CrossingsWithin(vs, y, |vs|, Least(Xs(vs)), Greatest(Xs(vs)));
    SpanWithin(Crossings(vs, y), x, Least(Xs(vs)), Greatest(Xs(vs)));
  }

  /** A point on a span of the sorted values lies within any bounds on the values. */
  lemma SpanWithin(c: seq<int>, x: int, lo: int, hi: int)
    requires forall k :: 0 <= k < |c| ==> lo <= c[k] <= hi
    requires InSpan(Sort(c), x)
    ensures lo <= x <= hi
  {
    var s := Sort(c);
    var i: nat :| i < |s| && InPair(s, i, x);
    assert s[i] in multiset(c) && s[i + 1] in multiset(c) by {
      assert s[i] in multiset(s) && s[i + 1] in multiset(s);
    }
  }

  lemma FillPointsIsize(vs: seq<Vertex>)
    ensures IsizeCoords(FillPoints(vs))
  {
    var pts := FillPoints(vs);
    if |vs| >= 3 {
      Extremes(vs);
      forall k | 0 <= k < |pts|
        ensures IsIsize(pts[k].x) && IsIsize(pts[k].y)
      {
        FillPointsCover(vs, pts[k].x, pts[k].y);
        FillWithinBox(vs, pts[k].x, pts[k].y);
      }
    }
  }

  /**
   `fill_polygon`: nothing for fewer than 3 vertices; otherwise every pixel of
   the region `InFill` that lies on the canvas takes the current colour, and no
   other pixel changes.
   */
  function FillPolygon(fb: Framebuffer, vs: seq<Vertex>): (r: Framebuffer)
    requires Valid(fb)
    ensures Valid(r) && SameState(fb, r)
    ensures |vs| < 3 ==> r == fb
    ensures forall x, y {:trigger At(r, x, y)} :: InBounds(fb, x, y) ==>
      At(r, x, y) == if InFill(vs, x, y) then fb.current_color else At(fb, x, y)
  {
    FillPointsIsize(vs);
    assert forall x, y {:trigger InFill(vs, x, y)} :: Coord(x, y) in FillPoints(vs) <==> InFill(vs, x, y) by {
      forall x, y
        ensures Coord(x, y) in FillPoints(vs) <==> InFill(vs, x, y)
      {
        FillPointsCover(vs, x, y);
      }
    }
    PlotCast(fb, FillPoints(vs))
  }

  // ---------------------------------------------------------------- even-odd rule

  /** How many entries lie strictly left of `x`. */
  function CountLeft(s: seq<int>, x: int): nat
    decreases |s|
  {
    if |s| == 0 then 0 else (if s[0] < x then 1 else 0) + CountLeft(s[1..], x)
  }

  lemma {:induction false} CountLeftAppend(a: seq<int>, b: seq<int>, x: int)
    ensures CountLeft(a + b, x) == CountLeft(a, x) + CountLeft(b, x)
    decreases |a|
  {
    if |a| > 0 {
      CountLeftAppend(a[1..], b, x);
      assert (a + b)[0] == a[0] && (a + b)[1..] == a[1..] + b;
    } else {
      assert a + b == b;
    }
  }

  lemma {:induction false} CountLeftInsert(v: int, s: seq<int>, x: int)
    requires Sorted(s)
    ensures CountLeft(Insert(v, s), x) == CountLeft(s, x) + (if v < x then 1 else 0)
    decreases |s|
  {
    if |s| > 0 && v > s[0] {
      CountLeftInsert(v, s[1..], x);
      assert Insert(v, s)[1..] == Insert(v, s[1..]);
    }
  }

  /** Sorting does not change how many entries lie left of `x`. */
  lemma {:induction false} CountLeftSort(s: seq<int>, x: int)
    ensures CountLeft(Sort(s), x) == CountLeft(s, x)
    decreases |s|
  {
    if |s| > 0 {
      var init, last := s[..|s| - 1], s[|s| - 1];
      assert Sort(s) == Insert(last, Sort(init));
      CountLeftSort(init, x);
      CountLeftInsert(last, Sort(init), x);
      CountLeftSnoc(s, x);
    }
  }

  lemma CountLeftSnoc(s: seq<int>, x: int)
    requires |s| > 0
    ensures CountLeft(s, x) == CountLeft(s[..|s| - 1], x) + if s[|s| - 1] < x then 1 else 0
  {
    var init, last := s[..|s| - 1], s[|s| - 1];
    CountLeftAppend(init, [last], x);
    assert CountLeft([last], x) == if last < x then 1 else 0 by {
      assert [last][1..] == [];
    }
    assert s == init + [last];
  }

  /**
   On a sorted list of even length, a value equal to no entry lies on a span
   exactly when an odd number of entries lie left of it.
   */
  lemma {:induction false} SpanParity(s: seq<int>, x: int)
    requires Sorted(s) && |s| % 2 == 0 && x !in s
    ensures InSpan(s, x) <==> CountLeft(s, x) % 2 == 1
    decreases |s|
  {
    if |s| > 0 {
      var t := s[2..];
      var c := CountLeft(t, x);
      assert CountLeft(s, x) == (if s[0] < x then 1 else 0) + (if s[1] < x then 1 else 0) + c by {
        assert s[1..][1..] == t;
      }
      assert x != s[0] && x != s[1];
      if x < s[1] {
        NoneLeft(t, x);
        FirstPair(s, x);
      } else {
        SpanParity(t, x);
        LaterPairs(s, x);
      }
    }
  }

  /** Left of the end of the first span, `x` is on a span exactly when it is on the first. */
  lemma FirstPair(s: seq<int>, x: int)
    requires Sorted(s) && |s| >= 2 && x < s[1]
    ensures InSpan(s, x) <==> s[0] <= x
  {
    if InSpan(s, x) {
      var i: nat :| i < |s| && InPair(s, i, x);
      assert i == 0;
    }
    if s[0] <= x {
      assert InPair(s, 0, x);
    }
  }

  /** Right of the first span, `x` is on a span exactly when it is on one of the later ones. */
  lemma LaterPairs(s: seq<int>, x: int)
    requires |s| >= 2 && x > s[1]
    ensures InSpan(s, x) <==> InSpan(s[2..], x)
  {
    var t := s[2..];
    if InSpan(s, x) {
      var i: nat :| i < |s| && InPair(s, i, x);
      assert InPair(t, i - 2, x);
    }
    if InSpan(t, x) {
      var i: nat :| i < |t| && InPair(t, i, x);
      assert InPair(s, i + 2, x);
    }
  }

  lemma {:induction false} NoneLeft(s: seq<int>, x: int)
    requires forall k :: 0 <= k < |s| ==> x <= s[k]
    ensures CountLeft(s, x) == 0
    decreases |s|
  {
    if |s| > 0 {
      NoneLeft(s[1..], x);
    }
  }

  /**
   The even-odd rule: a pixel of a row that is not itself a crossing is filled
   exactly when an odd number of edges cross that row to its left.
   */
  lemma FillEvenOdd(vs: seq<Vertex>, x: int, y: int)
    requires |vs| >= 3 && x !in Crossings(vs, y)
    ensures InFill(vs, x, y) <==> CountLeft(Crossings(vs, y), x) % 2 == 1
  {
    var c := Crossings(vs, y);
    var s := Sort(c);
    CountLeftSort(c, x);
    if MinY(vs) <= y < MaxY(vs) {
      CrossingsEven(vs, y);
      assert |s| == |c| by {
        assert |multiset(s)| == |s| && |multiset(c)| == |c|;
      }
      assert x !in s by {
        assert x !in multiset(c);
      }
      SpanParity(s, x);
    } else {
      NoCrossingsOutside(vs, y);
    }
  }
}
