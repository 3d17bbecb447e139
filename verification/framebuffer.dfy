/**
 The pixel canvas (`src/framebuffer.rs`): a row-major `width * height` buffer
 of packed `0xRRGGBB` colours, origin top-left, y growing downwards, together
 with a background colour (used by `clear`) and a current colour (used by every
 drawing operation).
 */
module Framebuffer {
  import opened Ints
  import opened Wrappers

  /** `isize::MAX / 4`: `vec![0u32; n]` panics with a capacity overflow beyond this. */
  const MAX_PIXELS: int := 0x1FFF_FFFF_FFFF_FFFF

  const DEFAULT_BACKGROUND: U32 := 0x000000
  const DEFAULT_CURRENT: U32 := 0xFFFFFF

  datatype Framebuffer = Framebuffer(
    width: nat,
    height: nat,
    buffer: seq<U32>,
    background_color: U32,
    current_color: U32)

  /** The invariant every framebuffer keeps: the buffer holds exactly one colour per pixel. */
  predicate Valid(fb: Framebuffer) {
    && fb.width < USIZE_LIMIT
    && fb.height < USIZE_LIMIT
    && fb.width * fb.height <= MAX_PIXELS
    && |fb.buffer| == fb.width * fb.height
  }

  /** Same dimensions and colours; only pixels may differ. */
  predicate SameState(a: Framebuffer, b: Framebuffer) {
    && a.width == b.width
    && a.height == b.height
    && |a.buffer| == |b.buffer|
    && a.background_color == b.background_color
    && a.current_color == b.current_color
  }

  predicate InBounds(fb: Framebuffer, x: int, y: int) {
    0 <= x < fb.width && 0 <= y < fb.height
  }

  lemma {:induction false} IndexInRange(w: nat, h: nat, x: nat, y: nat)
    requires x < w && y < h
    ensures y * w + x < w * h
  {
    calc {
      y * w + x;
    <
      y * w + w;
    ==
      (y + 1) * w;
    <= { MulLe(y + 1, h, w); }
      h * w;
    }
  }

  /** Distinct in-bounds coordinates never share a buffer slot. */
  lemma {:induction false} IndexInjective(w: nat, x1: nat, y1: nat, x2: nat, y2: nat)
    requires x1 < w && x2 < w
    ensures y1 * w + x1 == y2 * w + x2 ==> x1 == x2 && y1 == y2
  {
    if y1 < y2 {
      MulLe(y1 + 1, y2, w);
    } else if y2 < y1 {
      MulLe(y2 + 1, y1, w);
    }
  }

  /** Every buffer slot is some in-bounds pixel: column `i % w` of row `i / w`. */
  lemma {:induction false} IndexSurjective(w: nat, h: nat, i: nat)
    requires i < w * h
    ensures w > 0 && 0 <= i % w < w && 0 <= i / w < h && (i / w) * w + i % w == i
  {
    if w == 0 {
      assert false;
    }
    DivBounds(i, w);
    if i / w >= h {
      MulLe(h, i / w, w);
      assert false;
    }
  }

  lemma DivBounds(i: nat, w: nat)
    requires w > 0
    ensures 0 <= i / w && 0 <= i % w < w && (i / w) * w + i % w == i
  {
  }

  /** The colour stored for pixel `(x, y)`. */
  function At(fb: Framebuffer, x: int, y: int): U32
    requires Valid(fb) && InBounds(fb, x, y)
  {
    IndexInRange(fb.width, fb.height, x, y);
    fb.buffer[y * fb.width + x]
  }

  /** Every buffer index is the index of one in-bounds pixel. */
  lemma AtIndex(fb: Framebuffer, i: int) returns (x: nat, y: nat)
    requires Valid(fb) && 0 <= i < |fb.buffer|
    ensures InBounds(fb, x, y) && y * fb.width + x == i
  {
    IndexSurjective(fb.width, fb.height, i);
    x, y := i % fb.width, i / fb.width;
  }

  /** Two valid framebuffers with the same dimensions are equal when they agree on state and every pixel. */
  lemma PixelwiseEqual(a: Framebuffer, b: Framebuffer)
    requires Valid(a) && Valid(b) && SameState(a, b)
    requires forall x, y {:trigger At(a, x, y)} :: InBounds(a, x, y) ==> At(a, x, y) == At(b, x, y)
    ensures a == b
  {
    forall i | 0 <= i < |a.buffer|
      ensures a.buffer[i] == b.buffer[i]
    {
      var x, y := AtIndex(a, i);
      assert At(a, x, y) == a.buffer[i];
      assert At(b, x, y) == b.buffer[i];
    }
  }

  /** `Framebuffer::new`: black pixels, black background, white drawing colour. */
  function New(width: nat, height: nat): (fb: Framebuffer)
    requires width < USIZE_LIMIT && height < USIZE_LIMIT
    requires width * height <= MAX_PIXELS
    ensures Valid(fb)
    ensures fb.width == width && fb.height == height
    ensures fb.background_color == 0x000000 && fb.current_color == 0xFFFFFF
    ensures forall x, y {:trigger GetColor(fb, x, y)} :: InBounds(fb, x, y) ==> GetColor(fb, x, y) == Some(0x000000)
  {
    var fb := Framebuffer(width, height, seq(width * height, _ => DEFAULT_BACKGROUND),
                          DEFAULT_BACKGROUND, DEFAULT_CURRENT);
    assert forall x, y {:trigger GetColor(fb, x, y)} :: InBounds(fb, x, y) ==> GetColor(fb, x, y) == Some(0x000000) by {
      forall x, y | InBounds(fb, x, y)
        ensures GetColor(fb, x, y) == Some(0x000000)
      {
        IndexInRange(width, height, x, y);
      }
    }
    fb
  }

  /** `Framebuffer::clear`: every pixel becomes the background colour. */
  function Clear(fb: Framebuffer): (r: Framebuffer)
    requires Valid(fb)
    ensures Valid(r) && SameState(fb, r)
    ensures forall x, y {:trigger GetColor(r, x, y)} :: InBounds(r, x, y) ==> GetColor(r, x, y) == Some(fb.background_color)
  {
    var r := fb.(buffer := seq(|fb.buffer|, _ => fb.background_color));
    assert forall x, y {:trigger GetColor(r, x, y)} :: InBounds(r, x, y) ==> GetColor(r, x, y) == Some(fb.background_color) by {
      forall x, y | InBounds(r, x, y)
        ensures GetColor(r, x, y) == Some(fb.background_color)
      {
        IndexInRange(fb.width, fb.height, x, y);
      }
    }
    r
  }

  lemma ClearIdempotent(fb: Framebuffer)
    requires Valid(fb)
    ensures Clear(Clear(fb)) == Clear(fb)
  {
  }

  /** `Framebuffer::point`: paint one pixel with the current colour, silently ignore out-of-bounds coordinates. */
  function Point(fb: Framebuffer, x: nat, y: nat): (r: Framebuffer)
    requires Valid(fb)
    ensures Valid(r) && SameState(fb, r)
    ensures !InBounds(fb, x, y) ==> r == fb
    ensures forall px, py {:trigger At(r, px, py)} :: InBounds(fb, px, py) ==>
      At(r, px, py) == if px == x && py == y then fb.current_color else At(fb, px, py)
  {
    if x < fb.width && y < fb.height then
      IndexInRange(fb.width, fb.height, x, y);
      var r := fb.(buffer := fb.buffer[y * fb.width + x := fb.current_color]);
      PointFrame(fb, r, x, y);
      r
    else
      fb
  }

  lemma PointFrame(fb: Framebuffer, r: Framebuffer, x: nat, y: nat)
    requires Valid(fb) && InBounds(fb, x, y)
    requires y * fb.width + x < |fb.buffer|
    requires r == fb.(buffer := fb.buffer[y * fb.width + x := fb.current_color])
    ensures Valid(r) && SameState(fb, r)
    ensures forall px, py {:trigger At(r, px, py)} :: InBounds(fb, px, py) ==>
      At(r, px, py) == if px == x && py == y then fb.current_color else At(fb, px, py)
  {
    assert r.width == fb.width && r.height == fb.height && |r.buffer| == |fb.buffer|;
    forall px, py | InBounds(fb, px, py)
      ensures At(r, px, py) == if px == x && py == y then fb.current_color else At(fb, px, py)
    {
      PointPixel(fb.width, fb.height, fb.buffer, r.buffer, x, y, px, py, fb.current_color);
      assert At(r, px, py) == r.buffer[py * fb.width + px];
      assert At(fb, px, py) == fb.buffer[py * fb.width + px];
    }
  }

  /** Overwriting slot `y*w+x` of a `w`-by-`h` buffer changes pixel `(px, py)` only when it is `(x, y)`. */
  lemma {:induction false} PointPixel(w: nat, h: nat, a: seq<U32>, b: seq<U32>, x: nat, y: nat, px: nat, py: nat, c: U32)
    requires |a| == w * h && x < w && y < h && px < w && py < h
    requires y * w + x < |a| && b == a[y * w + x := c]
    ensures py * w + px < |b|
    ensures b[py * w + px] == if px == x && py == y then c else a[py * w + px]
  {
    IndexInRange(w, h, px, py);
    IndexInjective(w, px, py, x, y);
  }

  /** `Framebuffer::get_color`: the pixel's colour in bounds, nothing outside. */
  function GetColor(fb: Framebuffer, x: nat, y: nat): (r: Option<U32>)
    requires Valid(fb)
    ensures r.Some? <==> InBounds(fb, x, y)
    ensures r.Some? ==> r.value == At(fb, x, y)
  {
    if x < fb.width && y < fb.height then
      IndexInRange(fb.width, fb.height, x, y);
      Some(fb.buffer[y * fb.width + x])
    else
      None
  }

  /** Painting an in-bounds pixel and reading it back yields the current colour. */
  lemma PointThenGetColor(fb: Framebuffer, x: nat, y: nat)
    requires Valid(fb) && InBounds(fb, x, y)
    ensures GetColor(Point(fb, x, y), x, y) == Some(fb.current_color)
  {
  }

  /** `Framebuffer::set_background_color`: only the background colour changes. */
  function SetBackgroundColor(fb: Framebuffer, color: U32): (r: Framebuffer)
    requires Valid(fb)
    ensures Valid(r)
    ensures r.buffer == fb.buffer && r.width == fb.width && r.height == fb.height
    ensures r.current_color == fb.current_color && r.background_color == color
  {
    fb.(background_color := color)
  }

  /** `Framebuffer::set_current_color`: only the drawing colour changes. */
  function SetCurrentColor(fb: Framebuffer, color: U32): (r: Framebuffer)
    requires Valid(fb)
    ensures Valid(r)
    ensures r.buffer == fb.buffer && r.width == fb.width && r.height == fb.height
    ensures r.background_color == fb.background_color && r.current_color == color
  {
    fb.(current_color := color)
  }

  /** A new background colour only shows after the next `clear`. */
  lemma BackgroundTakesEffectOnClear(fb: Framebuffer, color: U32, x: nat, y: nat)
    requires Valid(fb) && InBounds(fb, x, y)
    ensures GetColor(SetBackgroundColor(fb, color), x, y) == GetColor(fb, x, y)
    ensures GetColor(Clear(SetBackgroundColor(fb, color)), x, y) == Some(color)
  {
  }

  /** A new drawing colour only shows on pixels drawn afterwards. */
  lemma CurrentTakesEffectOnPoint(fb: Framebuffer, color: U32, x: nat, y: nat)
    requires Valid(fb) && InBounds(fb, x, y)
    ensures GetColor(SetCurrentColor(fb, color), x, y) == GetColor(fb, x, y)
    ensures GetColor(Point(SetCurrentColor(fb, color), x, y), x, y) == Some(color)
  {
  }
}
