# Graficos_1 rasteriser in Dafny

A model of the drawing core of a small software rasteriser written in Rust, with
proofs about it. The core has four parts:

- **The framebuffer** (`src/framebuffer.rs`). It is a row-major `width * height`
  buffer of packed `0xRRGGBB` colours. It also holds a background colour, which
  `clear` uses, and a current colour, which every drawing call uses.
- **Bresenham lines and the closed polygon outline** (`src/line_impl.rs`).
- **The demo program's own routines** (`src/main.rs`): `draw_polygon`, whose
  minimum is three vertices, and the even-odd scanline `fill_polygon`.
- **The 24-bit BMP encoder** (`src/bmp.rs`). It writes a 54-byte header, then
  the pixel rows bottom-up, in BGR order, each row padded to four bytes.

The framebuffer is an immutable datatype (`Framebuffer.Framebuffer`) over
`seq<U32>`, and every operation is a pure function. A drawing call is modelled
as the sequence of coordinates its loops hand to `point`. The functions in
`Raster` then plot that sequence onto a framebuffer. Bresenham's loop is also
written as a method with the source's loop and proved equal to the functional
trace. The BMP writers are pure functions producing the bytes they would hand
to the file writer.

Files and modules:

| file | module | contents |
|---|---|---|
| `wrappers.dfy` | `Wrappers` | `Option` |
| `ints.dfy` | `Ints` | `u32`, byte and `isize` ranges, `usize` wrap-around, `as usize` casts |
| `framebuffer.dfy` | `Framebuffer` | the canvas and its six operations |
| `raster.dfy` | `Raster` | plotting a coordinate sequence, with clipping or through `as usize` casts |
| `line_impl.dfy` | `LineImpl` | Bresenham trace, loop method, closed outline with a two-vertex minimum |
| `sorting.dfy` | `Sorting` | the sort applied to the crossing list |
| `polygon.dfy` | `Polygon` | three-vertex outline, crossing test and abscissa, scanline fill, even-odd rule |
| `bmp.dfy` | `Bmp` | header bytes, pixel rows, a header reader, and the size-field finding |

Three behaviours of the code that a reader might not expect, all kept in the
model:

- **Zero dimensions.** `Framebuffer::new` accepts a zero width or height and
  produces an empty buffer. Every later `point` on such a canvas is ignored.
- **The last vertex row is never filled.** The fill loop runs over
  `min_y..=max_y`, but no edge passes the crossing test on row `max_y`. So the
  filled rows are `min_y <= y < max_y`. For example, a rectangle loses its
  bottom row.
- **The header's size field leaves out row padding.** In the BMP file format,
  the `bfSize` field of the BITMAPFILEHEADER holds the length of the file in
  bytes. The code writes `54 + 3 * width * height` there, which equals the
  length only when no row needs padding. See "## Findings".

## Model

| member | source | states |
|---|---|---|
| Framebuffer.New | src/framebuffer.rs:12-23 | The canvas has the requested size and a buffer of `width*height` pixels. Every pixel reads back as black. The background is black and the drawing colour white. |
| Framebuffer.Clear | src/framebuffer.rs:25-29 | Every pixel reads back as the background colour. Size and both colours are unchanged. |
| Framebuffer.ClearIdempotent | src/framebuffer.rs:25-29 | Clearing twice gives the same canvas as clearing once. |
| Framebuffer.IndexInRange | src/framebuffer.rs:32-34 | For an in-bounds pixel, `y*width + x` is a valid buffer index. |
| Framebuffer.IndexInjective | src/framebuffer.rs:33 | Two different in-bounds pixels never share a buffer slot. |
| Framebuffer.IndexSurjective | src/framebuffer.rs:33 | Every buffer slot `i` is the slot of the in-bounds pixel `(i % w, i / w)`. That no other pixel shares it is `Framebuffer.IndexInjective`. |
| Framebuffer.Point | src/framebuffer.rs:31-36 | An in-bounds `point` gives exactly pixel `(x, y)` the current colour, and every other pixel keeps its colour. An out-of-bounds `point` leaves the framebuffer unchanged. Size and colours never change. |
| Framebuffer.GetColor | src/framebuffer.rs:39-46 | The result is `Some` exactly when `(x, y)` is in bounds, and then holds the stored colour. |
| Framebuffer.PointThenGetColor | src/framebuffer.rs:31-46 | After an in-bounds `point(x, y)`, `get_color(x, y)` returns the current colour. |
| Framebuffer.SetBackgroundColor | src/framebuffer.rs:48-50 | Only the background colour changes. The pixels and the drawing colour stay. |
| Framebuffer.SetCurrentColor | src/framebuffer.rs:52-54 | Only the drawing colour changes. The pixels and the background colour stay. |
| Framebuffer.BackgroundTakesEffectOnClear | src/framebuffer.rs:25-50 | Setting the background repaints nothing. The next `clear` paints pixels with the new colour. |
| Framebuffer.CurrentTakesEffectOnPoint | src/framebuffer.rs:31-54 | Setting the drawing colour repaints nothing. The next `point` paints with the new colour. |
| Raster.PlotClipped | src/line_impl.rs:26-28 | Plotting a coordinate sequence behind the sign-and-range guard gives the current colour to exactly the in-bounds coordinates of the sequence. Every other pixel keeps its colour. |
| Raster.CastInBounds | src/main.rs:64 | For `isize` coordinates, the `as usize` cast lands inside a valid canvas exactly when the signed value is inside. A negative value never wraps onto the canvas. |
| Raster.PlotCast | src/main.rs:63-65 | Plotting through unguarded `as usize` casts also paints exactly the in-bounds coordinates of the sequence. |
| Raster.CastAgreesWithClip | src/main.rs:64 | Casting and guarding give the same framebuffer. |
| Raster.PlotClippedAppend | src/line_impl.rs:47-55 | Plotting two coordinate sequences one after the other gives the same canvas as plotting their concatenation. This is how consecutive `line` calls of the outline loop combine in `LineImpl.DrawEdgesIsPlot`. |
| LineImpl.CounterStep | src/line_impl.rs:30-38 | While the end is not reached, at least one of the tests `e2 >= dy` and `e2 <= dx` fires. A test fires only while its coordinate has not yet arrived. |
| LineImpl.StepOnWalk | src/line_impl.rs:30-38 | A loop iteration from a reachable state again gives a reachable state. Neither coordinate overshoots its endpoint. |
| LineImpl.StepProgress | src/line_impl.rs:30-38 | Each iteration moves to an 8-adjacent point: x by 0 or `sx`, y by 0 or `sy`, and not both by 0. The distance left to the endpoint strictly decreases, which is why the loop terminates. |
| LineImpl.Walk | src/line_impl.rs:25-39 | The points visited from a reachable state start at that state and end at `(x2, y2)`. Consecutive points are adjacent, and every point stays between the state and the endpoint on both axes. |
| LineImpl.Trace | src/line_impl.rs:16-39 | The trace of `line` starts at `(x1, y1)` and ends at `(x2, y2)`. It is 8-connected and lies inside the segment's bounding box. |
| LineImpl.TraceLength | src/line_impl.rs:25-39 | The loop plots exactly `max(abs(x2-x1), abs(y2-y1)) + 1` points. |
| LineImpl.UniformSteps | src/line_impl.rs:30-38 | A trace whose steps are all the same offset is an arithmetic progression from its first point. |
| LineImpl.HorizontalSteps | src/line_impl.rs:16-39 | When `y1 == y2`, point `k` of the trace is `(x1 + k*sx, y1)`, for `abs(x2-x1)+1` points. |
| LineImpl.HorizontalTrace | src/line_impl.rs:16-39 | A horizontal line visits exactly the points of row `y1` between `x1` and `x2`. |
| LineImpl.VerticalSteps | src/line_impl.rs:16-39 | When `x1 == x2`, point `k` of the trace is `(x1, y1 + k*sy)`, for `abs(y2-y1)+1` points. |
| LineImpl.VerticalTrace | src/line_impl.rs:16-39 | A vertical line visits exactly the points of column `x1` between `y1` and `y2`. |
| LineImpl.DiagonalWalk | src/line_impl.rs:20-38 | On a 45-degree line every iteration steps both coordinates: each step of the walk is `(sx, sy)`. |
| LineImpl.DiagonalTrace | src/line_impl.rs:16-39 | When `abs(x2-x1) == abs(y2-y1)`, point `k` of the trace is `(x1 + k*sx, y1 + k*sy)`. |
| LineImpl.DrawLine | src/line_impl.rs:10-40 | After `line(start, end)`, exactly the in-bounds points of the trace have the current colour. Every other pixel keeps its colour. |
| LineImpl.PlotWalkStep | src/line_impl.rs:25-39 | Plotting the rest of the walk is plotting the current point and then the walk from the next state. |
| LineImpl.Advance | src/line_impl.rs:30-38 | From a reachable state that is not yet the endpoint, the two tests keep the state reachable, so neither overshoots its endpoint. The distance left to `(x2, y2)` strictly shrinks, so the source's `loop` terminates. The new state is the trace's next state. That the move is to an 8-adjacent point is `LineImpl.StepProgress`. |
| LineImpl.Line | src/line_impl.rs:10-40 | The method with the source's loop, plot guard and break test yields the framebuffer `DrawLine` describes. |
| LineImpl.EdgeEnd | src/line_impl.rs:49-53 | The edges form a closed loop: edge `i` ends at vertex `(i + 1) mod n`, so the last edge returns to vertex 0. |
| LineImpl.DrawEdges | src/line_impl.rs:47-55 | Drawing edges `i..n-1` in turn gives the current colour to exactly the in-bounds pixels on one of their traces. |
| LineImpl.DrawEdgesIsPlot | src/line_impl.rs:47-55 | Running the outline loop from edge `i` gives the same canvas as plotting one coordinate sequence: the traces of edges `i, i+1, …, n-1` concatenated in the loop's order, each edge running from `vertices[i]` to the next vertex, and from the last back to the first. |
| LineImpl.OutlineSplit | src/line_impl.rs:47-55 | A point lies on the outline from edge `i` on exactly when it lies on edge `i` or on the outline from edge `i+1` on. |
| LineImpl.DrawPolygon | src/line_impl.rs:42-56 | With fewer than 2 vertices nothing changes. Otherwise exactly the in-bounds points of the `n` closed-loop edges take the current colour. |
| LineImpl.OutlineThroughVertices | src/line_impl.rs:47-55 | The outline passes through every vertex, and the last edge closes the loop back to vertex 0. |
| Polygon.DrawPolygon | src/main.rs:10-26 | With fewer than 3 vertices nothing changes. Otherwise exactly the in-bounds points of the `n` closed-loop edges take the current colour. |
| Polygon.OutlineMinimums | src/main.rs:12-14 | From 3 vertices on, both outline routines draw the same picture. With 2 vertices the demo's routine draws nothing, while `Line::draw_polygon` paints the first vertex. |
| Polygon.Least | src/main.rs:35 | The fold with `min` yields a value of the list that no element is below. |
| Polygon.Greatest | src/main.rs:36 | The fold with `max` yields a value of the list that no element exceeds. |
| Polygon.LowestHighest | src/main.rs:35-36 | Some vertex lies on row `min_y` and some on row `max_y`. |
| Polygon.Extremes | src/main.rs:35-36 | `min_y` and `max_y`, and the least and greatest vertex x, are `isize` values that bound every vertex. |
| Polygon.Crosses | src/main.rs:51 | An edge counts for row `y` exactly when one end is at or before `y` and the other after it. A counting edge is never horizontal, so the division that follows is safe. |
| Polygon.RoundUp | src/main.rs:53 | For a non-negative dividend and positive divisor, the result is the nearest integer to the quotient, with halves rounded up. |
| Polygon.RoundSigned | src/main.rs:53 | For a positive divisor, the result is the nearest integer to the quotient, with halves rounded away from zero as `f32::round` does. |
| Polygon.QuotientNegate | src/main.rs:52-53 | Negating dividend and divisor keeps the rounded quotient. |
| Polygon.RoundDiv | src/main.rs:52-53 | For any non-zero divisor, the result is the nearest integer to the exact quotient, with halves away from zero. |
| Polygon.CrossingX | src/main.rs:52-53 | For integer vertices, the crossing abscissa is the rounded exact point where the edge meets row `y`. It lies between the edge's end abscissas. |
| Polygon.CrossingBetween | src/main.rs:52-53 | For an interpolation parameter in `[0, 1)`, the rounded point lies between the two end abscissas. |
| Polygon.CrossingBetweenPos | src/main.rs:52-53 | The same bound for a positive denominator and a parameter in `[0, 1]`. |
| Polygon.RoundWithin | src/main.rs:53 | A nearest-integer rounding of a quotient that lies between two integers lies between them too. |
| Polygon.EdgeCrossings | src/main.rs:43-55 | After `m` edges, at most `m` crossings have been pushed. |
| Polygon.CrossingsWithin | src/main.rs:43-55 | Every crossing lies within any bounds on the vertex abscissas. |
| Polygon.CrossingParity | src/main.rs:43-55 | After `m` edges, the crossing count is odd exactly when vertex `m` is on the other side of the row from vertex 0. |
| Polygon.CrossingsEven | src/main.rs:43-62 | Every row of a closed vertex list is crossed an even number of times, so the `i + 1 < len` guard never drops a crossing. |
| Polygon.NoCrossingsBeside | src/main.rs:43-55 | A row that all vertices are on one side of is crossed by no edge. |
| Polygon.NoCrossingsOutside | src/main.rs:39-55 | Rows before `min_y`, and rows from `max_y` on, are crossed by no edge, so row `max_y` gets no span. |
| Polygon.CrossingsGrow | src/main.rs:43-55 | Later edges only add crossings. |
| Polygon.RowHasSpan | src/main.rs:39-55 | Every row from `min_y` up to, but not including, `max_y` is crossed at least twice. |
| Polygon.Range | src/main.rs:63 | `a..=b` lists the integers from `a` to `b` in increasing order, and is empty when `a > b`. |
| Polygon.SpanXsCover | src/main.rs:61-67 | The `step_by(2)` span loop visits `x` exactly when `x` lies on a span `I[2k]..=I[2k+1]`. |
| Polygon.RowPoints | src/main.rs:61-67 | Every point the spans of one row plot lies on that row. |
| Polygon.RowPointsCover | src/main.rs:58-67 | Row `y` plots `(x, y)` exactly when `x` lies on a span of the sorted crossings. |
| Polygon.FillRows | src/main.rs:39-67 | Every point plotted by the rows `lo..=hi` lies on one of those rows. |
| Polygon.FillRowsCover | src/main.rs:39-67 | The row loop plots `(x, y)` exactly when `y` is in the loop's range and `x` is on a span of row `y`. |
| Polygon.FillPointsCover | src/main.rs:28-69 | The fill plots `(x, y)` exactly when `(x, y)` is in the region `InFill`. |
| Polygon.FillWithinBox | src/main.rs:35-67 | Every filled point lies in the vertices' bounding box, without the row `max_y`. |
| Polygon.SpanWithin | src/main.rs:58-67 | A point on a span of the sorted crossings lies within any bounds on the crossings. |
| Polygon.FillPointsIsize | src/main.rs:51-64 | Every coordinate the fill hands to `point` is an `isize` value before the cast. |
| Polygon.FillPolygon | src/main.rs:28-69 | For integer vertices: with fewer than 3 vertices nothing changes. Otherwise exactly the in-bounds pixels of `InFill` take the current colour: none outside rows `min_y..max_y-1`, none off the canvas, and negative coordinates are rejected. Every other pixel keeps its colour. |
| Polygon.CountLeftAppend | src/main.rs:43-55 | The count of entries left of `x` adds up over a concatenation. |
| Polygon.CountLeftInsert | src/main.rs:58 | Inserting a value adds one to the count left of `x` exactly when the value is left of `x`. |
| Polygon.CountLeftSort | src/main.rs:58 | Sorting keeps the number of crossings left of `x`. |
| Polygon.SpanParity | src/main.rs:58-67 | In a sorted list of even length not containing `x`, `x` lies on a span exactly when an odd number of entries are left of it. |
| Polygon.FirstPair | src/main.rs:61-67 | Left of the end of the first span, `x` is on a span exactly when it is on the first one. |
| Polygon.LaterPairs | src/main.rs:61-67 | Right of the first span, `x` is on a span exactly when it is on one of the later ones. |
| Polygon.FillEvenOdd | src/main.rs:39-67 | The even-odd rule: a pixel that is not itself a crossing is filled exactly when an odd number of edges cross its row to its left. |
| Sorting.Insert | src/main.rs:58 | Inserting into a sorted list gives a sorted list with one more element and the same elements plus the new one. |
| Sorting.Sort | src/main.rs:58 | The result is sorted and a permutation of the input. |
| Sorting.HeadIsLeast | src/main.rs:58 | The head of a sorted list is its least element. |
| Sorting.SortedUnique | src/main.rs:58 | Two sorted permutations of the same elements are equal. |
| Sorting.SortIsTheSort | src/main.rs:58 | Every sorted permutation of the input equals `Sort` of it, so the model's sort yields what `intersections.sort()` yields. |
| Bmp.Le32Digits | src/bmp.rs:37-40 | The four bytes, read as base-256 digits, give the value modulo 2^32. |
| Bmp.Le32At | src/bmp.rs:37-40 | A four-byte field stored low byte first reads back as the value modulo 2^32. |
| Bmp.FileSize | src/bmp.rs:29 | The size is computed in `usize`, so the value fits below 2^64. |
| Bmp.FileSizeNoWrap | src/bmp.rs:29 | When nothing overflows, the size value is `54 + 3*width*height`: three bytes per pixel, no padding. |
| Bmp.HeaderOf | src/bmp.rs:30 | The header is 54 bytes long whatever the field values. |
| Bmp.Header | src/bmp.rs:24-114 | `write_bmp_header` produces exactly 54 bytes. |
| Bmp.ParseHeader | src/bmp.rs:30-34 | A header reader accepts exactly the inputs of at least 54 bytes that start with `B`, `M`. |
| Bmp.HeaderFieldsRead | src/bmp.rs:24-114 | A reader finds "BM" and these fields: file size `(54 + 3wh) mod 2^32` as computed in `usize`; reserved 0; data offset 54; info-header size 40; width and height modulo 2^32; 1 plane; 24 bits per pixel; no compression; image size 0; 2835 pixels per metre both ways; 0 colours used and important. |
| Bmp.HeaderFieldsOf | src/bmp.rs:30-110 | The same layout reads back for any value stored in the size field. |
| Bmp.HeaderSizes | src/bmp.rs:37-70 | The size, width and height fields read back modulo 2^32. |
| Bmp.TemplateFields | src/bmp.rs:42-110 | The fixed fields are `0, 54, 40, 1, 24, 0, 0, 0x0B13, 0x0B13, 0, 0`, whatever the size and dimensions. |
| Bmp.TemplateWord | src/bmp.rs:42-110 | Each fixed four-byte field holds its value in its two low bytes, with zeros above. |
| Bmp.Padding | src/bmp.rs:122 | `(4 - (3w % 4)) % 4` equals `w % 4`. |
| Bmp.TripleRemainder | src/bmp.rs:122 | The arithmetic fact behind `Padding`: `(4 - (3w % 4)) % 4 == w % 4`. |
| Bmp.PaddingLeast | src/bmp.rs:122 | The padding is below 4 and aligns `3w` bytes to a multiple of four, and no smaller count does. It is 0 exactly when `w % 4 == 0`. |
| Bmp.AlignedRemainder | src/bmp.rs:122 | A count that aligns `3w` to four leaves the same remainder modulo four as `w`. |
| Bmp.BgrDigits | src/bmp.rs:125-130 | The three pixel bytes, blue lowest, give the colour without its top byte. |
| Bmp.PixelBytes | src/bmp.rs:124-131 | A run of `n` pixels is `3n` bytes. |
| Bmp.RowBytes | src/bmp.rs:124-132 | An output row is `3w + padding` bytes. |
| Bmp.RowsLength | src/bmp.rs:123-133 | `n` output rows take `n` times the row length. |
| Bmp.PixelDataLength | src/bmp.rs:116-135 | The pixel data is `height * (3w + padding)` bytes. |
| Bmp.OffsetIsProduct | src/bmp.rs:123-133 | Row `k` starts at byte `k * (3w + padding)` of the pixel data. |
| Bmp.PixelBytesAt | src/bmp.rs:124-131 | Pixel `k` of a run occupies bytes `3k..3k+2`, blue first. |
| Bmp.RowsAt | src/bmp.rs:123-133 | Among the output rows, canvas row `y` is row `h-1-y`: the bottom canvas row comes first. |
| Bmp.RowBytesAt | src/bmp.rs:124-131 | Byte `3x + c` of the row for canvas row `y` is colour byte `c` of pixel `(x, y)`. |
| Bmp.RowBytesPad | src/bmp.rs:132 | The bytes of a row after its `3w` colour bytes are zero. |
| Bmp.PixelLands | src/bmp.rs:123-131 | Colour byte `c` of pixel `(x, y)` is at byte `3x + c` of output row `h-1-y`. |
| Bmp.PaddingZero | src/bmp.rs:132 | Every padding byte of every output row is zero. |
| Bmp.PixelRoundTrip | src/bmp.rs:116-135 | Reading the three bytes at pixel `(x, y)`'s place gives its colour modulo `2^24`. |
| Bmp.ReadBgr | src/bmp.rs:125-130 | Three bytes that hold a pixel's blue, green and red read back as the colour without its top byte. |
| Bmp.LeAtPrefix | src/bmp.rs:17-18 | Appending the pixel data does not change a header field. |
| Bmp.ParseHeaderPrefix | src/bmp.rs:17-18 | A reader of the file sees the header `write_bmp_header` wrote, whatever pixel data follows. |
| Bmp.EncodeLayout | src/bmp.rs:8-22 | The file is `54 + height * (3w + padding)` bytes. A reader accepts its header, which names offset 54, and the pixel data starts there. |
| Bmp.EncodeRoundTrip | src/bmp.rs:8-22 | A reader that follows the header's data offset finds every pixel's colour without its top byte. |
| Bmp.SizeFieldMatchesLength | src/bmp.rs:29 | For files below 4 GiB, the size field equals the file length exactly when the height is 0 or the width is a multiple of four. |
| Bmp.SizeArithmetic | src/bmp.rs:29 | `h` rows of `3w + p` bytes exceed `3wh` exactly when both `h` and `p` are non-zero. |
| Bmp.SizeFieldOneByOne | src/bmp.rs:29 | The 1x1 file's size field says 57 bytes, but the file has 58. |
| Bmp.PaddedFileSize | src/bmp.rs:29 | The corrected size, header plus padded rows, is at least the unpadded size. |
| Bmp.PaddedSizeFieldMatchesLength | src/bmp.rs:29 | With the padded size, the field always holds the file length modulo 2^32. |
| Bmp.PaddedAgreesElsewhere | src/bmp.rs:29 | The corrected file differs from the original only in the size field: same length, same other fields, same pixel data. |

## Left out

- Floating point. Vertices are `Vec3` values of `f32`, and the model takes
  integer points. For `line` and both outline routines this loses nothing:
  `line` rounds every coordinate with `round() as isize` first
  (`src/line_impl.rs:10-13`). The row range and the crossing test of the fill
  also use rounded values (`src/main.rs:35-36`, `src/main.rs:51`).
- Polygon.FillPolygon, Polygon.CrossingX: modelled for integer-valued vertices
  only. The crossing abscissa at `src/main.rs:52` interpolates from the
  unrounded `start` and `end` coordinates. So for a vertex with a fractional
  part, the source can put a crossing elsewhere than the model does on the
  rounded vertices. For example, the edge (0, 0.4)→(10, 2.4) on row 1 crosses
  at 3 in the source, while the rounded edge (0, 0)→(10, 2) crosses at 5. For
  integer vertices the abscissa is computed exactly and then rounded as
  `f32::round` rounds. It is not claimed to equal the `f32` computation bit
  for bit.
- Coordinates that are NaN, infinite or beyond `isize`, where `as isize`
  saturates. Vertices are taken as `isize` values.
- The `z` component of `Vec3`. No routine reads it.
- `main()`, with its hard-coded polygons and colours (`src/main.rs:71-182`). It
  is driver wiring only.
- File creation, `BufWriter`, `flush`, `io::Result` propagation and
  `Framebuffer::render_buffer`. These are I/O. `Bmp.Encode` gives the bytes
  `render_buffer` would write: `write_bmp_header`'s bytes followed by
  `write_pixel_data`'s.
- Debug-build overflow panics. Coordinates are unbounded integers, so `dx`,
  `2 * err`, `x + sx` and the fill's `y` loop are not checked for `isize`
  overflow. `width * height` and `width * 3` are not checked for `usize`
  overflow, except that `FileSize` wraps the size computation explicitly.
- Sign of the dimension fields. The width and height fields are read back as
  unsigned 32-bit numbers. A reader that treats them as signed sees the same
  bits.
- Framebuffer.New: its `requires` excludes two cases where `new` does not
  return a `width`-by-`height` canvas. In the first, `width * height` reaches
  2^64 and the multiplication at `src/framebuffer.rs:13` overflows. A debug
  build panics there. A release build wraps, and `new` returns a framebuffer
  whose buffer is shorter than `width * height`. In the second, the product
  fits but exceeds `isize::MAX / 4` pixels, and `vec!` panics with a capacity
  overflow. Running out of memory on an allocation that fits both bounds is
  not modelled either.
- LineImpl.DrawLine, LineImpl.DrawPolygon, Polygon.DrawPolygon,
  Polygon.FillPolygon: each describes the final canvas, not the order of the
  `point` calls. Painting one colour is insensitive to order and repetition.
  The order of the edges is stated separately, by `LineImpl.DrawEdgesIsPlot`.
- Bmp.SizeFieldMatchesLength: stated only for files below 2^32 bytes. Above
  that, both the field and the length wrap, and the field no longer reflects
  the length.

## Findings

| source | as written | input that shows it | evidently intended | confidence | as-written member | corrected member |
|---|---|---|---|---|---|---|
| src/bmp.rs:29 | `file_size = 54 + width * height * 24 / 8` counts three bytes per pixel and no row padding, so the size field is short by `height * padding` bytes | A 1x1 canvas: the field says 57, the file `write_pixel_data` completes has 58 bytes (a 2x2 canvas: 66 vs 70) | `54 + height * (3 * width + padding)`, the length of the file written | not executed; proved in the model | Bmp.SizeFieldOneByOne | Bmp.PaddedSizeFieldMatchesLength |

`Bmp.SizeFieldMatchesLength` states exactly when the field as written is right:
when the height is 0 or the width is a multiple of four. `Bmp.EncodePadded` is
the encoder with the corrected size field. `Bmp.PaddedAgreesElsewhere` shows
that it changes nothing but that field.
