/**
 * Byte-buffer layout of the image containers: the 4-byte-aligned row stride
 * of the gray and colour images and the row-major index arithmetic that all
 * containers (gray image, colour image, integral tables) use.
 *
 * The source computes with C `int`. Dafny integers are unbounded, so the
 * containers' invariants bound every buffer by `MaxCells` (the number of
 * cells a non-negative C `int` index can address), and C's truncating
 * division is written out as `CDiv`.
 */
module Layout {

  /** An 8-bit pixel or channel value (`BYTE`). */
  newtype byte = x: int | 0 <= x < 256

  /** Number of cells addressable by a non-negative 32-bit `int` index. */
  const MaxCells: int := 0x8000_0000

  /** C integer division by a positive divisor: truncates toward zero. */
  function CDiv(a: int, b: int): (q: int)
    requires b > 0
    ensures a >= 0 ==> q == a / b
    ensures a < 0 ==> a <= q * b < a + b
  {
    if a >= 0 then a / b
    else
      var r := (-a) / b;
      assert r * b <= -a < r * b + b;
      -r
  }

  /** IMAGE::ComputeStride: one byte per pixel, rows padded to 4 bytes. */
  function GrayStride(w: int): (s: int)
    ensures s % 4 == 0
    ensures w >= 0 ==> w <= s < w + 4
  {
    CDiv(w + 3, 4) * 4
  }

  /** IMAGEC::ComputeStride: three bytes per pixel, rows padded to 4 bytes. */
  function ColorStride(w: int): (s: int)
    ensures s % 4 == 0
    ensures w >= 0 ==> 3 * w <= s < 3 * w + 4
  {
    CDiv(w * 3 + 3, 4) * 4
  }

  /** Division by a positive stride recovers row and column of a row-major offset. */
  lemma DivModUnique(i: int, stride: int, y: int, x: int)
    requires stride > 0 && 0 <= x < stride && i == y * stride + x
    ensures i / stride == y && i % stride == x
  {
    var q, r := i / stride, i % stride;
    assert i == q * stride + r && 0 <= r < stride;
    assert (y - q) * stride == r - x;
    MulAwayFromZero(y - q, stride);
  }

  /** A non-zero multiple of a positive number is at least that number in size. */
  lemma MulAwayFromZero(k: int, s: int)
    requires s > 0
    ensures k >= 1 ==> k * s >= s
    ensures k <= -1 ==> k * s <= -s
  {
    if k >= 1 {
      assert k * s == (k - 1) * s + s;
    } else if k <= -1 {
      assert k * s == (k + 1) * s - s;
    }
  }

  /** Products of non-negative numbers grow with their factors. */
  lemma MulMono(a: int, b: int, c: int, d: int)
    requires 0 <= a <= c && 0 <= b <= d
    ensures a * b <= c * d
  {
    assert a * b <= c * b;
  }

  /** Regrouping a product of three factors. */
  lemma MulAssoc(a: int, b: int, c: int)
    ensures a * b * c == a * (b * c)
  {
  }

  /** A row-major offset `y*stride + x` of an in-bounds cell lies inside row `y`
      and inside a buffer of `height` rows, and decodes back to `(x, y)`. */
  lemma RowMajor(x: int, y: int, width: int, height: int, stride: int)
    requires 0 <= x < width <= stride && 0 <= y < height
    ensures y * stride <= y * stride + x < (y + 1) * stride <= stride * height
    ensures (y * stride + x) / stride == y && (y * stride + x) % stride == x
  {
    assert (y + 1) * stride == y * stride + stride;
    assert (y + 1) * stride <= height * stride by {
      assert y + 1 <= height;
    }
    DivModUnique(y * stride + x, stride, y, x);
  }

  /** Distinct in-bounds cells have distinct row-major offsets. */
  lemma RowMajorInjective(x: int, y: int, x': int, y': int, width: int, height: int, stride: int)
    requires 0 <= x < width <= stride && 0 <= y < height
    requires 0 <= x' < width && 0 <= y' < height
    requires y * stride + x == y' * stride + x'
    ensures x == x' && y == y'
  {
    RowMajor(x, y, width, height, stride);
    RowMajor(x', y', width, height, stride);
  }

  /** Row of offset `j` in a row-major table `width` cells wide. */
  function RowOf(j: nat, width: nat): nat
    requires width > 0
  {
    if j < width then 0 else 1 + RowOf(j - width, width)
  }

  /** Column of offset `j` in a row-major table `width` cells wide. */
  function ColOf(j: nat, width: nat): nat
    requires width > 0
  {
    if j < width then j else ColOf(j - width, width)
  }

  /** The offset `y*width + x` of cell `(x, y)` decodes back to `(x, y)`. */
  lemma {:induction false} OffsetDecode(x: nat, y: nat, width: nat)
    requires x < width
    ensures RowOf(y * width + x, width) == y && ColOf(y * width + x, width) == x
  {
    if y > 0 {
      assert y * width + x - width == (y - 1) * width + x;
      OffsetDecode(x, y - 1, width);
    }
  }

  /** Every offset below `width * height` is the offset of a cell of a
      `width`-by-`height` table. */
  lemma {:induction false} OffsetInTable(j: nat, width: nat, height: nat)
    requires width > 0 && j < width * height
    ensures RowOf(j, width) < height && ColOf(j, width) < width
    ensures j == RowOf(j, width) * width + ColOf(j, width)
  {
    if j >= width {
      assert j - width < width * (height - 1);
      OffsetInTable(j - width, width, height - 1);
    }
  }

  /** The three channel bytes of colour pixel `(x, y)` start at
      `y*stride + 3*x` and stay inside row `y`. */
  lemma ColorSlotBounds(x: int, y: int, width: int, height: int, stride: int)
    requires 0 <= x < width && 3 * width <= stride && 0 <= y < height
    ensures 0 <= y * stride <= y * stride + x * 3
    ensures y * stride + x * 3 + 2 < (y + 1) * stride <= stride * height
  {
    assert (y + 1) * stride == y * stride + stride;
    MulMono(y + 1, stride, height, stride);
  }

  /** The slot of colour pixel `(x, y)` decodes back to `(x, y)`. */
  lemma ColorSlot(x: int, y: int, width: int, height: int, stride: int)
    requires 0 <= x < width && 3 * width <= stride && 0 <= y < height
    ensures (y * stride + x * 3) / stride == y && (y * stride + x * 3) % stride == x * 3
    ensures (y * stride + x * 3) % stride / 3 == x
  {
    DivModUnique(y * stride + x * 3, stride, y, x * 3);
  }

  /** The 3-byte slots of two distinct colour pixels do not overlap. */
  lemma ColorSlotsDisjoint(x: int, y: int, x': int, y': int, width: int, height: int, stride: int)
    requires 0 <= x < width && 3 * width <= stride && 0 <= y < height
    requires 0 <= x' < width && 0 <= y' < height
    requires x != x' || y != y'
    ensures y * stride + x * 3 + 2 < y' * stride + x' * 3 || y' * stride + x' * 3 + 2 < y * stride + x * 3
  {
    ColorSlotBounds(x, y, width, height, stride);
    ColorSlotBounds(x', y', width, height, stride);
    if y < y' {
      MulMono(y + 1, stride, y', stride);
    } else if y' < y {
      MulMono(y' + 1, stride, y, stride);
    }
  }
}
