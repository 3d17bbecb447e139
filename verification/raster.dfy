/**
 Applying `Framebuffer::point` along a sequence of plotted coordinates. The
 drawing operations are modelled as producers of such sequences (a Bresenham
 trace, a list of scanline spans); these functions turn a sequence into the
 framebuffer it paints.
 */
module Raster {
  import opened Ints
  import opened Framebuffer

  /** A plotted integer coordinate, possibly off-canvas. */
  datatype Coord = Coord(x: int, y: int)

  /**
   A polygon vertex with integer coordinates (the unused `z` is dropped). For
   `line` and both outlines this loses nothing: `line` rounds each coordinate
   with `round() as isize` before using it. The scanline fill reads the
   unrounded coordinates when it interpolates a crossing, so the fill is
   modelled only for vertices whose coordinates are integers.
   */
  datatype Vertex = Vertex(x: Isize, y: Isize)

  predicate IsizeCoords(pts: seq<Coord>) {
    forall i :: 0 <= i < |pts| ==> IsIsize(pts[i].x) && IsIsize(pts[i].y)
  }

  /** The guarded `point` call of one Bresenham iteration: skip coordinates that are negative or off-canvas. */
  function PlotOne(fb: Framebuffer, p: Coord): (r: Framebuffer)
    requires Valid(fb)
    ensures Valid(r) && SameState(fb, r)
  {
    if p.x >= 0 && p.y >= 0 && p.x < fb.width && p.y < fb.height
    then Point(fb, p.x, p.y) else fb
  }

  /**
   Plot every coordinate behind an explicit sign and range test, as the
   Bresenham loop does before converting to `usize`.
   */
  function PlotClipped(fb: Framebuffer, pts: seq<Coord>): (r: Framebuffer)
    requires Valid(fb)
    ensures Valid(r) && SameState(fb, r)
    ensures forall x, y {:trigger At(r, x, y)} :: InBounds(fb, x, y) ==>
      At(r, x, y) == if Coord(x, y) in pts then fb.current_color else At(fb, x, y)
    decreases |pts|
  {
    if |pts| == 0 then fb
    else
      var p := pts[0];
      var r := PlotClipped(PlotOne(fb, p), pts[1..]);
      assert forall x, y {:trigger Coord(x, y) in pts} :: InBounds(fb, x, y) ==> (Coord(x, y) in pts <==> Coord(x, y) == p || Coord(x, y) in pts[1..]) by {
        assert pts == [p] + pts[1..];
      }
      r
  }

  /** For an `isize` value, `as usize` lands inside a valid canvas exactly when the value itself does. */
  lemma {:induction false} CastInBounds(fb: Framebuffer, x: Isize, y: Isize)
    requires Valid(fb)
    ensures InBounds(fb, CastUsize(x), CastUsize(y)) <==> InBounds(fb, x, y)
    ensures InBounds(fb, x, y) ==> CastUsize(x) == x && CastUsize(y) == y
  {
    if InBounds(fb, CastUsize(x), CastUsize(y)) && !InBounds(fb, x, y) {
      assert fb.width > ISIZE_MAX || fb.height > ISIZE_MAX;
      MulLe(1, fb.height, fb.width);
      MulLe(1, fb.width, fb.height);
      assert false;
    }
  }

  /**
   Plot every coordinate through `point(x as usize, y as usize)` with no sign
   test, as the scanline fill does. The cast turns a negative coordinate into a
   huge one that `point` rejects, so the effect is the same as clipping.
   */
  function PlotCast(fb: Framebuffer, pts: seq<Coord>): (r: Framebuffer)
    requires Valid(fb) && IsizeCoords(pts)
    ensures Valid(r) && SameState(fb, r)
    ensures forall x, y {:trigger At(r, x, y)} :: InBounds(fb, x, y) ==>
      At(r, x, y) == if Coord(x, y) in pts then fb.current_color else At(fb, x, y)
    decreases |pts|
  {
    if |pts| == 0 then fb
    else
      var p := pts[0];
      CastInBounds(fb, p.x, p.y);
      var r := PlotCast(Point(fb, CastUsize(p.x), CastUsize(p.y)), pts[1..]);
      assert forall x, y {:trigger Coord(x, y) in pts} :: InBounds(fb, x, y) ==> (Coord(x, y) in pts <==> Coord(x, y) == p || Coord(x, y) in pts[1..]) by {
        assert pts == [p] + pts[1..];
      }
      r
  }

  /** Casting and clipping paint the same pixels for `isize` coordinates. */
  lemma CastAgreesWithClip(fb: Framebuffer, pts: seq<Coord>)
    requires Valid(fb) && IsizeCoords(pts)
    ensures PlotCast(fb, pts) == PlotClipped(fb, pts)
  {
    PixelwiseEqual(PlotCast(fb, pts), PlotClipped(fb, pts));
  }

  /** Plotting a concatenation is plotting one part after the other. */
  lemma {:induction false} PlotClippedAppend(fb: Framebuffer, a: seq<Coord>, b: seq<Coord>)
    requires Valid(fb)
    ensures PlotClipped(fb, a + b) == PlotClipped(PlotClipped(fb, a), b)
  {
    var lhs, rhs := PlotClipped(fb, a + b), PlotClipped(PlotClipped(fb, a), b);
    forall x, y | InBounds(fb, x, y)
      ensures At(lhs, x, y) == At(rhs, x, y)
    {
      assert Coord(x, y) in a + b <==> Coord(x, y) in a || Coord(x, y) in b;
    }
    PixelwiseEqual(lhs, rhs);
  }

  /** One unfolding of `PlotClipped`: the first coordinate, then the rest. */
  lemma PlotClippedCons(fb: Framebuffer, p: Coord, rest: seq<Coord>)
    requires Valid(fb)
    ensures PlotClipped(fb, [p] + rest) == PlotClipped(PlotOne(fb, p), rest)
  {
    assert ([p] + rest)[0] == p && ([p] + rest)[1..] == rest;
  }
}
