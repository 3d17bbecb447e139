/**
 The 24-bit BMP encoder behind `render_buffer` (`src/bmp.rs`): a 54-byte
 BITMAPFILEHEADER + BITMAPINFOHEADER pair followed by the pixel rows, bottom
 row first, each pixel as blue, green, red and each row padded with zero bytes
 to a multiple of four. Both writers are modelled as pure producers of the
 bytes they hand to the writer.
 */
module Bmp {
  import opened Ints
  import opened Wrappers
  import opened Framebuffer

  const HEADER_SIZE: nat := 54
  const PIXEL_OFFSET: nat := 54
  const BITS_PER_PIXEL: nat := 24

  /** Horizontal and vertical resolution written into the header: 0x0B13 pixels per metre (about 72 DPI). */
  const RESOLUTION: nat := 0x0B13

  /** The two signature bytes `b'B'`, `b'M'`. */
  const SIGNATURE: seq<Byte> := ['B' as int, 'M' as int]

  // ---------------------------------------------------------------- little-endian fields

  /** `v & 0xFF`, `(v >> 8) & 0xFF`, `(v >> 16) & 0xFF`, `(v >> 24) & 0xFF`. */
  function Le32(v: nat): (b: seq<Byte>)
    ensures |b| == 4
  {
    [v % 0x100, v / 0x100 % 0x100, v / 0x1_0000 % 0x100, v / 0x100_0000 % 0x100]
  }

  /** The little-endian number held in the `n` bytes at offset `i`: how a BMP reader reads a field. */
  function LeAt(b: seq<Byte>, i: nat, n: nat): nat
    requires i + n <= |b|
    decreases n
  {
    if n == 0 then 0 else b[i] as int + 0x100 * LeAt(b, i + 1, n - 1)
  }

  lemma LeAt2(b: seq<Byte>, i: nat)
    requires i + 2 <= |b|
    ensures LeAt(b, i, 2) == b[i] as int + 0x100 * b[i + 1] as int
  {
    assert LeAt(b, i + 1, 1) == b[i + 1] + 0x100 * LeAt(b, i + 2, 0);
  }

  lemma LeAt4(b: seq<Byte>, i: nat)
    requires i + 4 <= |b|
    ensures LeAt(b, i, 4) == b[i] as int + 0x100 * b[i + 1] as int + 0x1_0000 * b[i + 2] as int + 0x100_0000 * b[i + 3] as int
  {
    LeAt2(b, i + 2);
    assert LeAt(b, i + 1, 3) == b[i + 1] + 0x100 * LeAt(b, i + 2, 2);
  }

  /** The four bytes of `Le32(v)` are the base-256 digits of `v` modulo 2^32. */
  lemma {:induction false} Le32Digits(v: nat)
    ensures Le32(v)[0] as int + 0x100 * Le32(v)[1] as int + 0x1_0000 * Le32(v)[2] as int + 0x100_0000 * Le32(v)[3] as int == v % U32_LIMIT
  {
    var q1, q2, q3, q4 := v / 0x100, v / 0x1_0000, v / 0x100_0000, v / U32_LIMIT;
    assert q2 == q1 / 0x100;
    assert q3 == q2 / 0x100;
    assert q4 == q3 / 0x100;
    assert v == v % 0x100 + 0x100 * (q1 % 0x100) + 0x1_0000 * (q2 % 0x100) + 0x100_0000 * (q3 % 0x100) + U32_LIMIT * q4;
  }

  /** Reading back a field written with `Le32` gives the value modulo 2^32. */
  lemma Le32At(b: seq<Byte>, i: nat, v: nat)
    requires i + 4 <= |b|
    requires b[i] == Le32(v)[0] && b[i + 1] == Le32(v)[1] && b[i + 2] == Le32(v)[2] && b[i + 3] == Le32(v)[3]
    ensures LeAt(b, i, 4) == v % U32_LIMIT
  {
    LeAt4(b, i);
    Le32Digits(v);
  }

  // ---------------------------------------------------------------- header

  /**
   `BMP_HEADER_SIZE + (width * height * BMP_BITS_PER_PIXEL / 8)` in `usize`
   arithmetic, each multiplication and the addition wrapping: three bytes per
   pixel, with no allowance for row padding.
   */
  function FileSize(w: nat, h: nat): (s: nat)
    ensures s < USIZE_LIMIT
  {
    WrapUsize(HEADER_SIZE + WrapUsize(WrapUsize(w * h) * BITS_PER_PIXEL) / 8)
  }

  /** Without overflow the file-size value is the header plus three bytes per pixel. */
  lemma FileSizeNoWrap(w: nat, h: nat)
    requires 24 * (w * h) < USIZE_LIMIT
    ensures FileSize(w, h) == 54 + 3 * (w * h)
  {
    var p := w * h;
    assert WrapUsize(p) == p;
    assert WrapUsize(p * 24) == 24 * p;
  }

  /**
   Byte `i` of the header `write_bmp_header` builds, given the encoded file
   size, width and height: a zeroed 54-byte vector in which the signature, the
   file size, the pixel offset, the info-header size, the dimensions, the plane
   count, the bit depth and the two resolutions are then stored.
   */
  function HeaderByte(size: seq<Byte>, width: seq<Byte>, height: seq<Byte>, i: nat): Byte
    requires |size| == 4 && |width| == 4 && |height| == 4 && i < HEADER_SIZE
  {
    if i < 2 then SIGNATURE[i]
    else if i < 6 then size[i - 2]
    else if i == 10 then PIXEL_OFFSET
    else if i == 14 then 40
    else if 18 <= i < 22 then width[i - 18]
    else if 22 <= i < 26 then height[i - 22]
    else if i == 26 then 1
    else if i == 28 then BITS_PER_PIXEL
    else if i == 38 || i == 42 then 0x13
    else if i == 39 || i == 43 then 0x0B
    else 0
  }

  function HeaderOf(size: seq<Byte>, width: seq<Byte>, height: seq<Byte>): (b: seq<Byte>)
    requires |size| == 4 && |width| == 4 && |height| == 4
    ensures |b| == HEADER_SIZE
  {
    seq(HEADER_SIZE, i requires 0 <= i < HEADER_SIZE => HeaderByte(size, width, height, i))
  }

  /** `write_bmp_header`: the 54 header bytes. */
  function Header(w: nat, h: nat): (b: seq<Byte>)
    ensures |b| == HEADER_SIZE
  {
    HeaderOf(Le32(FileSize(w, h)), Le32(w), Le32(h))
  }

  /** The fields of a BITMAPFILEHEADER + BITMAPINFOHEADER pair, read as unsigned numbers. */
  datatype HeaderFields = HeaderFields(
    fileSize: nat,
    reserved: nat,
    dataOffset: nat,
    dibSize: nat,
    width: nat,
    height: nat,
    planes: nat,
    bitsPerPixel: nat,
    compression: nat,
    imageSize: nat,
    xPixelsPerMetre: nat,
    yPixelsPerMetre: nat,
    coloursUsed: nat,
    coloursImportant: nat)

  /** A reader of the header layout: nothing unless there are 54 bytes starting with "BM". */
  function ParseHeader(b: seq<Byte>): (r: Option<HeaderFields>)
    ensures r.Some? <==> |b| >= HEADER_SIZE && b[..2] == SIGNATURE
  {
    if |b| < HEADER_SIZE || b[..2] != SIGNATURE then None
    else Some(HeaderFields(
      LeAt(b, 2, 4), LeAt(b, 6, 4), LeAt(b, 10, 4), LeAt(b, 14, 4),
      LeAt(b, 18, 4), LeAt(b, 22, 4), LeAt(b, 26, 2), LeAt(b, 28, 2),
      LeAt(b, 30, 4), LeAt(b, 34, 4), LeAt(b, 38, 4), LeAt(b, 42, 4),
      LeAt(b, 46, 4), LeAt(b, 50, 4)))
  }

  /**
   What a reader finds in the header: the file size, width and height modulo
   2^32, data at offset 54, a 40-byte info header, one plane, 24 bits per pixel,
   no compression, image size 0, 2835 pixels per metre both ways, no palette.
   */
  lemma HeaderFieldsRead(w: nat, h: nat)
    ensures ParseHeader(Header(w, h)) == Some(HeaderFields(
      FileSize(w, h) % U32_LIMIT, 0, PIXEL_OFFSET, 40,
      w % U32_LIMIT, h % U32_LIMIT, 1, BITS_PER_PIXEL,
      0, 0, RESOLUTION, RESOLUTION, 0, 0))
  {
    HeaderFieldsOf(FileSize(w, h), w, h);
  }

  /** The same header layout read back for any value stored in the size field. */
  lemma HeaderFieldsOf(size: nat, w: nat, h: nat)
    ensures ParseHeader(HeaderOf(Le32(size), Le32(w), Le32(h))) == Some(HeaderFields(
      size % U32_LIMIT, 0, PIXEL_OFFSET, 40,
      w % U32_LIMIT, h % U32_LIMIT, 1, BITS_PER_PIXEL,
      0, 0, RESOLUTION, RESOLUTION, 0, 0))
  {
    var b := HeaderOf(Le32(size), Le32(w), Le32(h));
    HeaderSizes(size, w, h);
    TemplateFields(Le32(size), Le32(w), Le32(h));
    assert b[..2] == SIGNATURE;
  }

  lemma HeaderSizes(size: nat, w: nat, h: nat)
    ensures LeAt(HeaderOf(Le32(size), Le32(w), Le32(h)), 2, 4) == size % U32_LIMIT
    ensures LeAt(HeaderOf(Le32(size), Le32(w), Le32(h)), 18, 4) == w % U32_LIMIT
    ensures LeAt(HeaderOf(Le32(size), Le32(w), Le32(h)), 22, 4) == h % U32_LIMIT
  {
    var b := HeaderOf(Le32(size), Le32(w), Le32(h));
    Le32At(b, 2, size);
    Le32At(b, 18, w);
    Le32At(b, 22, h);
  }

  /** The fixed fields do not depend on the encoded size and dimensions. */
  lemma TemplateFields(size: seq<Byte>, width: seq<Byte>, height: seq<Byte>)
    requires |size| == 4 && |width| == 4 && |height| == 4
    ensures var b := HeaderOf(size, width, height);
      && LeAt(b, 6, 4) == 0 && LeAt(b, 10, 4) == PIXEL_OFFSET && LeAt(b, 14, 4) == 40
      && LeAt(b, 26, 2) == 1 && LeAt(b, 28, 2) == BITS_PER_PIXEL
      && LeAt(b, 30, 4) == 0 && LeAt(b, 34, 4) == 0
      && LeAt(b, 38, 4) == RESOLUTION && LeAt(b, 42, 4) == RESOLUTION
      && LeAt(b, 46, 4) == 0 && LeAt(b, 50, 4) == 0
  {
    var b := HeaderOf(size, width, height);
    TemplateWord(size, width, height, 6);
    TemplateWord(size, width, height, 10);
    TemplateWord(size, width, height, 14);
    TemplateWord(size, width, height, 30);
    TemplateWord(size, width, height, 34);
    TemplateWord(size, width, height, 38);
    TemplateWord(size, width, height, 42);
    TemplateWord(size, width, height, 46);
    TemplateWord(size, width, height, 50);
    LeAt2(b, 26);
    LeAt2(b, 28);
  }

  /** One four-byte fixed field: the byte stored at its offset and zeros above. */
  lemma TemplateWord(size: seq<Byte>, width: seq<Byte>, height: seq<Byte>, i: nat)
    requires |size| == 4 && |width| == 4 && |height| == 4
    requires i == 6 || i == 10 || i == 14 || i == 30 || i == 34 || i == 38 || i == 42 || i == 46 || i == 50
    ensures LeAt(HeaderOf(size, width, height), i, 4)
      == HeaderByte(size, width, height, i) + 0x100 * HeaderByte(size, width, height, i + 1)
    ensures HeaderByte(size, width, height, i + 2) == 0 && HeaderByte(size, width, height, i + 3) == 0
  {
    LeAt4(HeaderOf(size, width, height), i);
  }

  // ---------------------------------------------------------------- pixel data

  /** `(4 - (width * 3 % 4)) % 4`: the zero bytes that end each row, which is the width's remainder modulo four. */
  function Padding(w: nat): (p: nat)
    ensures p == w % 4
  {
    TripleRemainder(w);
    (4 - (w * 3 % 4)) % 4
  }

  lemma {:induction false} TripleRemainder(w: nat)
    ensures (4 - (w * 3 % 4)) % 4 == w % 4
  {
    var m, r := w / 4, w % 4;
    assert w * 3 == 4 * (3 * m) + 3 * r;
    assert w * 3 % 4 == 3 * r % 4;
  }

  /**
   The padding aligns every row to four bytes, no smaller count of zero bytes
   does, and rows need none exactly when the width is a multiple of four.
   */
  lemma {:induction false} PaddingLeast(w: nat, q: nat)
    ensures Padding(w) < 4 && (3 * w + Padding(w)) % 4 == 0
    ensures (3 * w + q) % 4 == 0 ==> Padding(w) <= q
    ensures Padding(w) == 0 <==> w % 4 == 0
  {
    var m, r := w / 4, w % 4;
    assert 3 * w + r == 4 * (3 * m + r);
    if (3 * w + q) % 4 == 0 {
      AlignedRemainder(w, q);
    }
  }

  /** A count that aligns `3w` bytes to four leaves the same remainder as `w`. */
  lemma {:induction false} AlignedRemainder(w: nat, q: nat)
    requires (3 * w + q) % 4 == 0
    ensures q % 4 == w % 4
  {
    var k, m, r := (3 * w + q) / 4, w / 4, w % 4;
    assert q == 4 * (k - 3 * m - r) + r;
  }

  /** Bytes per output row. */
  function Stride(w: nat): nat {
    3 * w + Padding(w)
  }

  /** `[c & 0xFF, (c >> 8) & 0xFF, (c >> 16) & 0xFF]`: blue, green, red; the top byte is dropped. */
  function Bgr(c: U32): (b: seq<Byte>)
    ensures |b| == 3
  {
    [c % 0x100, c / 0x100 % 0x100, c / 0x1_0000 % 0x100]
  }

  /** The three bytes of a pixel read back as a colour give its low 24 bits. */
  lemma {:induction false} BgrDigits(c: U32)
    ensures Bgr(c)[0] as int + 0x100 * Bgr(c)[1] as int + 0x1_0000 * Bgr(c)[2] as int == c % 0x100_0000
  {
    var q1, q2, q3 := c / 0x100, c / 0x1_0000, c / 0x100_0000;
    assert q2 == q1 / 0x100;
    assert q3 == q2 / 0x100;
    assert c == c % 0x100 + 0x100 * (q1 % 0x100) + 0x1_0000 * (q2 % 0x100) + 0x100_0000 * q3;
  }

  /** The inner `for x in 0..width` loop over the pixels `base .. base+n-1`. */
  function PixelBytes(buf: seq<U32>, base: nat, n: nat): (b: seq<Byte>)
    requires base + n <= |buf|
    ensures |b| == 3 * n
  {
    if n == 0 then [] else PixelBytes(buf, base, n - 1) + Bgr(buf[base + n - 1])
  }

  function Zeros(n: nat): (z: seq<Byte>)
    ensures |z| == n && forall i :: 0 <= i < n ==> z[i] == 0
  {
    seq(n, _ => 0)
  }

  /** Canvas row `y` (pixels `y*w .. y*w+w-1`) followed by its padding. */
  function RowBytes(buf: seq<U32>, w: nat, h: nat, y: nat): (b: seq<Byte>)
    requires y < h && w * h <= |buf|
    ensures |b| == Stride(w)
  {
    RowEnd(w, h, y);
    PixelBytes(buf, y * w, w) + Zeros(Padding(w))
  }

  lemma RowEnd(w: nat, h: nat, y: nat)
    requires y < h
    ensures y * w + w <= w * h
  {
    MulAdd(y, 1, w);
    MulLe(y + 1, h, w);
  }

  /**
   The outer `for y in (0..height).rev()` loop after it has run for canvas rows
   `n-1` down to `0`: the last `n` output rows, the bottom-most canvas row first.
   */
  function Rows(buf: seq<U32>, w: nat, h: nat, n: nat): (b: seq<Byte>)
    requires n <= h && w * h <= |buf|
    decreases n
  {
    if n == 0 then [] else RowBytes(buf, w, h, n - 1) + Rows(buf, w, h, n - 1)
  }

  /** `write_pixel_data`: canvas rows from the bottom (`height - 1`) up to the top. */
  function PixelData(buf: seq<U32>, w: nat, h: nat): seq<Byte>
    requires w * h <= |buf|
  {
    Rows(buf, w, h, h)
  }

  /** `write_bmp_file` for a framebuffer, as `render_buffer` calls it: the header, then the pixel rows. */
  function Encode(fb: Framebuffer): seq<Byte>
    requires Valid(fb)
  {
    Header(fb.width, fb.height) + PixelData(fb.buffer, fb.width, fb.height)
  }

  // ---------------------------------------------------------------- layout of the pixel data

  /** Where row `k` begins among rows of `s` bytes: `k * s`, written as repeated addition. */
  function Offset(k: nat, s: nat): (o: nat)
    decreases k
  {
    if k == 0 then 0 else Offset(k - 1, s) + s
  }

  lemma {:induction false} OffsetIsProduct(k: nat, s: nat)
    ensures Offset(k, s) == k * s
    decreases k
  {
    if k > 0 {
      OffsetIsProduct(k - 1, s);
      MulAdd(k - 1, 1, s);
    }
  }

  /** A later row begins at or after the end of an earlier one. */
  lemma {:induction false} OffsetBelow(k: nat, n: nat, s: nat)
    requires k < n
    ensures Offset(k, s) + s <= Offset(n, s)
    decreases n
  {
    if k < n - 1 {
      OffsetBelow(k, n - 1, s);
    }
  }

  lemma {:induction false} RowsLength(buf: seq<U32>, w: nat, h: nat, n: nat)
    requires n <= h && w * h <= |buf|
    ensures |Rows(buf, w, h, n)| == Offset(n, Stride(w))
    decreases n
  {
    if n > 0 {
      RowsLength(buf, w, h, n - 1);
    }
  }

  /** Pixel `k` of a run sits at bytes `3k .. 3k+2`, blue first. */
  lemma {:induction false} PixelBytesAt(buf: seq<U32>, base: nat, n: nat, k: nat, c: nat)
    requires base + n <= |buf| && k < n && c < 3
    ensures PixelBytes(buf, base, n)[3 * k + c] == Bgr(buf[base + k])[c]
    decreases n
  {
    if k < n - 1 {
      PixelBytesAt(buf, base, n - 1, k, c);
    }
  }

  /** Among the last `n` output rows, canvas row `y` is row `n-1-y`. */
  lemma {:induction false} RowsAt(buf: seq<U32>, w: nat, h: nat, n: nat, y: nat, j: nat)
    requires n <= h && w * h <= |buf| && y < n && j < Stride(w)
    ensures Offset(n - 1 - y, Stride(w)) + j < |Rows(buf, w, h, n)|
    ensures Rows(buf, w, h, n)[Offset(n - 1 - y, Stride(w)) + j] == RowBytes(buf, w, h, y)[j]
    decreases n
  {
    var s := Stride(w);
    var first, rest := RowBytes(buf, w, h, n - 1), Rows(buf, w, h, n - 1);
    assert Rows(buf, w, h, n) == first + rest;
    RowsLength(buf, w, h, n);
    OffsetBelow(n - 1 - y, n, s);
    if y == n - 1 {
      ConcatLeft(first, rest, j);
    } else {
      RowsAt(buf, w, h, n - 1, y, j);
      var i := Offset(n - 1 - 1 - y, s) + j;
      assert Offset(n - 1 - y, s) + j == |first| + i;
      ConcatRight(first, rest, i);
    }
  }

  lemma ConcatLeft(a: seq<Byte>, b: seq<Byte>, i: nat)
    requires i < |a|
    ensures (a + b)[i] == a[i]
  {
  }

  lemma ConcatRight(a: seq<Byte>, b: seq<Byte>, i: nat)
    requires i < |b|
    ensures (a + b)[|a| + i] == b[i]
  {
  }

  /** `|PixelData| == h * Stride(w)`: every canvas row is written once with its padding. */
  lemma PixelDataLength(buf: seq<U32>, w: nat, h: nat)
    requires w * h <= |buf|
    ensures |PixelData(buf, w, h)| == h * Stride(w)
  {
    RowsLength(buf, w, h, h);
    OffsetIsProduct(h, Stride(w));
  }

  /** Where output row `h-1-y`, which holds canvas row `y`, begins. */
  function RowStart(w: nat, h: nat, y: nat): nat
    requires y < h
  {
    Offset(h - 1 - y, Stride(w))
  }

  /** Colour byte `c` (blue, green, red) of pixel `(x, y)` is byte `3x + c` of its row. */
  lemma RowBytesAt(buf: seq<U32>, w: nat, h: nat, y: nat, x: nat, c: nat)
    requires w * h <= |buf| && x < w && y < h && c < 3
    ensures y * w + x < |buf| && 3 * x + c < Stride(w)
    ensures RowBytes(buf, w, h, y)[3 * x + c] == Bgr(buf[y * w + x])[c]
  {
    RowEnd(w, h, y);
    PixelBytesAt(buf, y * w, w, x, c);
    ConcatLeft(PixelBytes(buf, y * w, w), Zeros(Padding(w)), 3 * x + c);
  }

  /** The bytes of a row after its `3w` colour bytes are zero. */
  lemma RowBytesPad(buf: seq<U32>, w: nat, h: nat, y: nat, j: nat)
    requires w * h <= |buf| && y < h && 3 * w <= j < Stride(w)
    ensures RowBytes(buf, w, h, y)[j] == 0
  {
    RowEnd(w, h, y);
    ConcatRight(PixelBytes(buf, y * w, w), Zeros(Padding(w)), j - 3 * w);
  }

  /** Colour byte `c` of pixel `(x, y)` lands at byte `3x + c` of the output row holding canvas row `y`. */
  lemma PixelLands(buf: seq<U32>, w: nat, h: nat, x: nat, y: nat, c: nat)
    requires w * h <= |buf| && x < w && y < h && c < 3
    ensures y * w + x < |buf|
    ensures RowStart(w, h, y) + 3 * x + c < |PixelData(buf, w, h)|
    ensures PixelData(buf, w, h)[RowStart(w, h, y) + 3 * x + c] == Bgr(buf[y * w + x])[c]
  {
    RowBytesAt(buf, w, h, y, x, c);
    RowsAt(buf, w, h, h, y, 3 * x + c);
  }

  /** The padding bytes of every output row are zero. */
  lemma PaddingZero(buf: seq<U32>, w: nat, h: nat, y: nat, j: nat)
    requires w * h <= |buf| && y < h && 3 * w <= j < Stride(w)
    ensures RowStart(w, h, y) + j < |PixelData(buf, w, h)|
    ensures PixelData(buf, w, h)[RowStart(w, h, y) + j] == 0
  {
    RowBytesPad(buf, w, h, y, j);
    RowsAt(buf, w, h, h, y, j);
  }

  /** A reader's view of pixel `(x, y)`: the three bytes at its place, blue lowest. */
  function ReadPixel(data: seq<Byte>, w: nat, h: nat, x: nat, y: nat): (c: Option<nat>)
    requires y < h
  {
    var i := RowStart(w, h, y) + 3 * x;
    if i + 3 <= |data| then Some(data[i] as int + 0x100 * data[i + 1] as int + 0x1_0000 * data[i + 2] as int)
    else None
  }

  /** Every canvas pixel reads back from the encoded rows as its colour without the top byte. */
  lemma PixelRoundTrip(fb: Framebuffer, x: nat, y: nat)
    requires Valid(fb) && InBounds(fb, x, y)
    ensures ReadPixel(PixelData(fb.buffer, fb.width, fb.height), fb.width, fb.height, x, y)
      == Some(At(fb, x, y) % 0x100_0000)
  {
    var c := At(fb, x, y);
    var data := PixelData(fb.buffer, fb.width, fb.height);
    var i := RowStart(fb.width, fb.height, y) + 3 * x;
    PixelLands(fb.buffer, fb.width, fb.height, x, y, 0);
    PixelLands(fb.buffer, fb.width, fb.height, x, y, 1);
    PixelLands(fb.buffer, fb.width, fb.height, x, y, 2);
    ReadBgr(data, i, c);
  }

  /** Three bytes that hold `Bgr(c)` read back, blue lowest, as `c` without its top byte. */
  lemma ReadBgr(data: seq<Byte>, i: nat, c: U32)
    requires i + 3 <= |data|
    requires data[i] == Bgr(c)[0] && data[i + 1] == Bgr(c)[1] && data[i + 2] == Bgr(c)[2]
    ensures data[i] as int + 0x100 * data[i + 1] as int + 0x1_0000 * data[i + 2] as int == c % 0x100_0000
  {
    BgrDigits(c);
  }

  // ---------------------------------------------------------------- the whole file

  /** A field read from a prefix is the same field read from the whole sequence. */
  lemma {:induction false} LeAtPrefix(b: seq<Byte>, rest: seq<Byte>, i: nat, n: nat)
    requires i + n <= |b|
    ensures LeAt(b + rest, i, n) == LeAt(b, i, n)
    decreases n
  {
    if n > 0 {
      LeAtPrefix(b, rest, i + 1, n - 1);
    }
  }

  /** The header reader looks at the first 54 bytes only. */
  lemma ParseHeaderPrefix(b: seq<Byte>, rest: seq<Byte>)
    requires |b| == HEADER_SIZE
    ensures ParseHeader(b + rest) == ParseHeader(b)
  {
    assert (b + rest)[..2] == b[..2];
    LeAtPrefix(b, rest, 2, 4);
    LeAtPrefix(b, rest, 6, 4);
    LeAtPrefix(b, rest, 10, 4);
    LeAtPrefix(b, rest, 14, 4);
    LeAtPrefix(b, rest, 18, 4);
    LeAtPrefix(b, rest, 22, 4);
    LeAtPrefix(b, rest, 26, 2);
    LeAtPrefix(b, rest, 28, 2);
    LeAtPrefix(b, rest, 30, 4);
    LeAtPrefix(b, rest, 34, 4);
    LeAtPrefix(b, rest, 38, 4);
    LeAtPrefix(b, rest, 42, 4);
    LeAtPrefix(b, rest, 46, 4);
    LeAtPrefix(b, rest, 50, 4);
  }

  /**
   The file `render_buffer` writes: a header a reader accepts, with the pixel
   data at the offset the header names and one padded row per canvas row.
   */
  lemma EncodeLayout(fb: Framebuffer)
    requires Valid(fb)
    ensures |Encode(fb)| == HEADER_SIZE + fb.height * Stride(fb.width)
    ensures ParseHeader(Encode(fb)) == ParseHeader(Header(fb.width, fb.height))
    ensures ParseHeader(Encode(fb)).Some? && ParseHeader(Encode(fb)).value.dataOffset == PIXEL_OFFSET
    ensures Encode(fb)[PIXEL_OFFSET..] == PixelData(fb.buffer, fb.width, fb.height)
  {
    PixelDataLength(fb.buffer, fb.width, fb.height);
    ParseHeaderPrefix(Header(fb.width, fb.height), PixelData(fb.buffer, fb.width, fb.height));
    HeaderFieldsRead(fb.width, fb.height);
  }

  /** A reader that follows the header's data offset finds every pixel's colour without its top byte. */
  lemma EncodeRoundTrip(fb: Framebuffer, x: nat, y: nat)
    requires Valid(fb) && InBounds(fb, x, y)
    ensures ParseHeader(Encode(fb)).Some?
    ensures var file := Encode(fb);
      ReadPixel(file[ParseHeader(file).value.dataOffset..], fb.width, fb.height, x, y) == Some(At(fb, x, y) % 0x100_0000)
  {
    EncodeLayout(fb);
    PixelRoundTrip(fb, x, y);
  }

  /**
   The size field agrees with the file's real length exactly when no row needs
   padding (or there are no rows), for files small enough that neither wraps.
   */
  lemma SizeFieldMatchesLength(fb: Framebuffer)
    requires Valid(fb) && HEADER_SIZE + fb.height * Stride(fb.width) < U32_LIMIT
    ensures ParseHeader(Encode(fb)).Some?
    ensures ParseHeader(Encode(fb)).value.fileSize == |Encode(fb)| <==> fb.height == 0 || fb.width % 4 == 0
  {
    var w, h := fb.width, fb.height;
    EncodeLayout(fb);
    HeaderFieldsRead(w, h);
    SizeArithmetic(w, h, Stride(w), Padding(w));
    FileSizeNoWrap(w, h);
  }

  /**
   `h` rows of `s = 3w + p` bytes are the `3wh` colour bytes and `hp` padding
   bytes, so the unpadded count falls short exactly when both are non-zero.
   */
  lemma SizeArithmetic(w: nat, h: nat, s: nat, p: nat)
    requires s == 3 * w + p && 54 + h * s < U32_LIMIT
    ensures 24 * (w * h) < USIZE_LIMIT
    ensures (54 + 3 * (w * h)) % U32_LIMIT == 54 + 3 * (w * h)
    ensures 54 + 3 * (w * h) == 54 + h * s <==> h == 0 || p == 0
  {
    var pixels := 3 * (w * h);
    assert h * s == pixels + h * p;
    MulLe(0, h, p);
    if h != 0 && p != 0 {
      MulLe(1, h, p);
    }
    SmallRemainder(54 + pixels, U32_LIMIT);
  }

  lemma SmallRemainder(x: nat, m: nat)
    requires x < m
    ensures x % m == x
  {
  }

  /** The size field of the 1x1 file says 57 bytes; the file has 58. */
  lemma SizeFieldOneByOne()
    ensures ParseHeader(Encode(New(1, 1))).Some?
    ensures ParseHeader(Encode(New(1, 1))).value.fileSize == 57
    ensures |Encode(New(1, 1))| == 58
  {
    var fb := New(1, 1);
    assert Padding(1) == 1 && Stride(1) == 4;
    EncodeLayout(fb);
    HeaderFieldsRead(1, 1);
    FileSizeNoWrap(1, 1);
    SmallRemainder(57, U32_LIMIT);
  }

  // ---------------------------------------------------------------- corrected size field

  /** The file size counting the row padding: header plus `h` rows of `Stride(w)` bytes. */
  function PaddedFileSize(w: nat, h: nat): (s: nat)
    ensures s >= HEADER_SIZE + 3 * (w * h)
  {
    MulLe(3 * w, Stride(w), h);
    HEADER_SIZE + h * Stride(w)
  }

  /** The encoder with the size field computed from the padded rows. */
  function EncodePadded(fb: Framebuffer): seq<Byte>
    requires Valid(fb)
  {
    HeaderOf(Le32(PaddedFileSize(fb.width, fb.height)), Le32(fb.width), Le32(fb.height))
      + PixelData(fb.buffer, fb.width, fb.height)
  }

  /** With the padded size the field always holds the file's length modulo 2^32. */
  lemma PaddedSizeFieldMatchesLength(fb: Framebuffer)
    requires Valid(fb)
    ensures ParseHeader(EncodePadded(fb)).Some?
    ensures ParseHeader(EncodePadded(fb)).value.fileSize == |EncodePadded(fb)| % U32_LIMIT
  {
    var w, h := fb.width, fb.height;
    var hd, data := HeaderOf(Le32(PaddedFileSize(w, h)), Le32(w), Le32(h)), PixelData(fb.buffer, w, h);
    PixelDataLength(fb.buffer, w, h);
    assert |hd + data| == PaddedFileSize(w, h);
    ParseHeaderPrefix(hd, data);
    HeaderFieldsOf(PaddedFileSize(w, h), w, h);
  }

  /** Apart from the size field, the corrected file is the file `Encode` writes. */
  lemma PaddedAgreesElsewhere(fb: Framebuffer)
    requires Valid(fb)
    ensures ParseHeader(EncodePadded(fb)).Some? && ParseHeader(Encode(fb)).Some?
    ensures ParseHeader(EncodePadded(fb)).value
      == ParseHeader(Encode(fb)).value.(fileSize := PaddedFileSize(fb.width, fb.height) % U32_LIMIT)
    ensures |EncodePadded(fb)| == |Encode(fb)|
    ensures EncodePadded(fb)[PIXEL_OFFSET..] == Encode(fb)[PIXEL_OFFSET..]
  {
    var w, h := fb.width, fb.height;
    var hd, data := HeaderOf(Le32(PaddedFileSize(w, h)), Le32(w), Le32(h)), PixelData(fb.buffer, w, h);
    ParseHeaderPrefix(hd, data);
    HeaderFieldsOf(PaddedFileSize(w, h), w, h);
    EncodeLayout(fb);
    HeaderFieldsRead(w, h);
  }
}
