/**
 Machine integer ranges of the Rust source. Dafny integers are unbounded, so
 each width the source relies on is named here and every wrap-around or cast
 the model needs is written out explicitly.
 */
module Ints {

  const U32_LIMIT: int := 0x1_0000_0000
  const USIZE_LIMIT: int := 0x1_0000_0000_0000_0000
  const ISIZE_MIN: int := -0x8000_0000_0000_0000
  const ISIZE_MAX: int := 0x7FFF_FFFF_FFFF_FFFF

  /** A `u32`; the framebuffer stores packed `0xRRGGBB` colours in these. */
  type U32 = c: int | 0 <= c < U32_LIMIT

  /** A `u8`. */
  type Byte = b: int | 0 <= b < 256

  /** An `isize`: the type of rounded vertex coordinates. */
  type Isize = v: int | ISIZE_MIN <= v <= ISIZE_MAX

  predicate IsIsize(v: int) {
    ISIZE_MIN <= v <= ISIZE_MAX
  }

  /** `v as usize` for an `isize` value: two's-complement reinterpretation. */
  function CastUsize(v: Isize): (r: nat)
    ensures r < USIZE_LIMIT
    ensures 0 <= v ==> r == v
    ensures v < 0 ==> r > ISIZE_MAX
  {
    if v >= 0 then v else v + USIZE_LIMIT
  }

  /** Wrap-around of a `usize` arithmetic result (release-build semantics). */
  function WrapUsize(v: nat): (r: nat)
    ensures r < USIZE_LIMIT
    ensures v < USIZE_LIMIT ==> r == v
  {
    v % USIZE_LIMIT
  }

  function Abs(v: int): nat {
    if v < 0 then -v else v
  }

  function Max(a: int, b: int): int {
    if a < b then b else a
  }

  /** `v` lies on the closed interval between `a` and `b`, in either order. */
  predicate Between(a: int, v: int, b: int) {
    (a <= v <= b) || (b <= v <= a)
  }

  /** Multiplying both sides of `a <= b` by a non-negative factor. */
  lemma MulLe(a: int, b: int, c: nat)
    requires a <= b
    ensures a * c <= b * c
  {
  }

  /** Distributing a product over a sum. */
  lemma MulAdd(a: int, b: int, c: int)
    ensures (a + b) * c == a * c + b * c
  {
  }
}
