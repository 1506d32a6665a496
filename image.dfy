/**
 * The gray image `IMAGE` and the colour image `IMAGEC`: a row-major byte
 * buffer with a 4-byte-aligned row stride, addressed by `(x, y)`.
 * Each class has an abstract view `Pixels()`, the pixel grid the buffer
 * encodes, so that pixel reads and writes can be stated without the
 * padding bytes at the end of each row.
 */
module Image {
  import opened Layout

  /** The pixel grid a gray buffer encodes: pixel `(x, y)` of a `w`-by-`h`
      image with row stride `s` is byte `y*s + x`. */
  function GrayGrid(buf: seq<byte>, w: nat, h: nat, s: nat): (g: seq<seq<byte>>)
    requires w <= s && s * h <= |buf|
    ensures |g| == h
    ensures forall y :: 0 <= y < h ==> |g[y]| == w
  {
    seq(h, y requires 0 <= y < h =>
      seq(w, x requires 0 <= x < w => (RowMajor(x, y, w, h, s); buf[y * s + x])))
  }

  /** Writing the byte of pixel `(x, y)` changes that pixel of the grid and
      no other. */
  lemma GrayGridUpdate(buf: seq<byte>, w: nat, h: nat, s: nat, x: nat, y: nat, v: byte)
    requires w <= s && s * h <= |buf| && x < w && y < h
    ensures y * s + x < |buf|
    ensures GrayGrid(buf[y * s + x := v], w, h, s)
            == GrayGrid(buf, w, h, s)[y := GrayGrid(buf, w, h, s)[y][x := v]]
  {
    RowMajor(x, y, w, h, s);
    var before, after := GrayGrid(buf, w, h, s), GrayGrid(buf[y * s + x := v], w, h, s);
    var expected := before[y := before[y][x := v]];
    forall y' | 0 <= y' < h
      ensures after[y'] == expected[y']
    {
      forall x' | 0 <= x' < w
        ensures after[y'][x'] == expected[y'][x']
      {
        RowMajor(x', y', w, h, s);
        if (x' != x || y' != y) && y' * s + x' == y * s + x {
          RowMajorInjective(x, y, x', y', w, h, s);
        }
      }
    }
  }

  /** The three channel bytes of one colour pixel, in buffer order. */
  datatype Channels = Channels(c0: byte, c1: byte, c2: byte)

  /** The pixel grid a colour buffer encodes: pixel `(x, y)` of a
      `w`-by-`h` image with row stride `s` is bytes `y*s + 3x` to
      `y*s + 3x + 2`. */
  function ColorGrid(buf: seq<byte>, w: nat, h: nat, s: nat): (g: seq<seq<Channels>>)
    requires 3 * w <= s && s * h <= |buf|
    ensures |g| == h
    ensures forall y :: 0 <= y < h ==> |g[y]| == w
  {
    seq(h, y requires 0 <= y < h =>
      seq(w, x requires 0 <= x < w =>
        var i := y * s + x * 3;
        (ColorSlotBounds(x, y, w, h, s);
         Channels(buf[i], buf[i + 1], buf[i + 2]))))
  }

  /** Writing the three bytes of pixel `(x, y)` changes that pixel of the
      grid and no other. */
  lemma ColorGridUpdate(buf: seq<byte>, w: nat, h: nat, s: nat, x: nat, y: nat, c: Channels)
    requires 3 * w <= s && s * h <= |buf| && x < w && y < h
    ensures y * s + x * 3 + 2 < |buf|
    ensures var i := y * s + x * 3;
            ColorGrid(buf[i := c.c0][i + 1 := c.c1][i + 2 := c.c2], w, h, s)
            == ColorGrid(buf, w, h, s)[y := ColorGrid(buf, w, h, s)[y][x := c]]
  {
    ColorSlotBounds(x, y, w, h, s);
    var i := y * s + x * 3;
    var buf' := buf[i := c.c0][i + 1 := c.c1][i + 2 := c.c2];
    var before, after := ColorGrid(buf, w, h, s), ColorGrid(buf', w, h, s);
    var expected := before[y := before[y][x := c]];
    forall y' | 0 <= y' < h
      ensures after[y'] == expected[y']
    {
      forall x' | 0 <= x' < w
        ensures after[y'][x'] == expected[y'][x']
      {
        ColorSlotBounds(x', y', w, h, s);
        if x' != x || y' != y {
          ColorSlotsDisjoint(x, y, x', y', w, h, s);
        }
      }
    }
  }

  /** The luminance image `IMAGE`: one byte per pixel. */
  class GrayImage {
    var width: int
    var height: int
    var stride: int
    var data: array<byte>

    ghost predicate Valid()
      reads this
    {
      0 <= width && 0 <= height &&
      width <= stride < MaxCells &&
      stride * height <= data.Length &&
      stride * height <= MaxCells
    }

    /** IMAGE(width, height) with the default `stride = 0, pData = NULL`:
        computes the aligned stride and allocates the rows. The stride
        formula's `w + 3` fits in an `int`. */
    constructor (w: int, h: int)
      requires 0 <= w && 0 <= h && w + 3 < MaxCells && GrayStride(w) * h <= MaxCells
      ensures Valid() && width == w && height == h
      ensures stride == GrayStride(w) && fresh(data) && data.Length == stride * height
    {
      width, height := w, h;
      stride := GrayStride(w);
      data := new byte[GrayStride(w) * h];
    }

    /** IMAGE(width, height, stride, pData): an image over the caller's
        buffer with the caller's stride. */
    constructor Wrap(w: int, h: int, s: int, buf: array<byte>)
      requires 0 <= w <= s < MaxCells && 0 <= h && s * h <= buf.Length && s * h <= MaxCells
      ensures Valid() && width == w && height == h && stride == s && data == buf
    {
      width, height, stride, data := w, h, s, buf;
    }

    /** IMAGE::GetIndex: the offset of pixel `(x, y)` in the buffer. */
    function GetIndex(x: int, y: int): (i: int)
      reads this
      requires Valid() && 0 <= x < width && 0 <= y < height
      ensures y * stride <= i < (y + 1) * stride
      ensures 0 <= i < stride * height <= data.Length
      ensures i / stride == y && i % stride == x
    {
      RowMajor(x, y, width, height, stride);
      y * stride + x
    }

    /** The pixel grid the buffer encodes (row `y`, column `x`). */
    ghost function Pixels(): (g: seq<seq<byte>>)
      reads this, data
      requires Valid()
      ensures |g| == height
      ensures forall y :: 0 <= y < height ==> |g[y]| == width
    {
      GrayGrid(data[..], width, height, stride)
    }

    /** IMAGE::GetValue: the byte of pixel `(x, y)`. */
    function GetValue(x: int, y: int): (v: byte)
      reads this, data
      requires Valid() && 0 <= x < width && 0 <= y < height
      ensures v == Pixels()[y][x]
    {
      data[GetIndex(x, y)]
    }

    /** IMAGE::SetValue: writes the byte of pixel `(x, y)`; no other byte
        of the buffer, padding included, changes. */
    method SetValue(x: int, y: int, value: byte)
      requires Valid() && 0 <= x < width && 0 <= y < height
      modifies data
      ensures Valid()
      ensures data[..] == old(data[..])[GetIndex(x, y) := value]
      ensures Pixels() == old(Pixels())[y := old(Pixels())[y][x := value]]
    {
      var index := GetIndex(x, y);
      GrayGridUpdate(data[..], width, height, stride, x, y, value);
      data[index] := value;
    }
  }

  /** The colour image `IMAGEC`: three bytes per pixel. */
  class ColorImage {
    var width: int
    var height: int
    var stride: int
    var data: array<byte>

    ghost predicate Valid()
      reads this
    {
      0 <= width && 0 <= height &&
      3 * width <= stride < MaxCells &&
      stride * height <= data.Length &&
      stride * height <= MaxCells
    }

    /** IMAGEC(width, height) with the default `stride = 0, pData = NULL`:
        computes the aligned stride and allocates the rows. The stride
        formula's `w * 3 + 3` fits in an `int`. */
    constructor (w: int, h: int)
      requires 0 <= w && 0 <= h && w * 3 + 3 < MaxCells && ColorStride(w) * h <= MaxCells
      ensures Valid() && width == w && height == h
      ensures stride == ColorStride(w) && fresh(data) && data.Length == stride * height
    {
      width, height := w, h;
      stride := ColorStride(w);
      data := new byte[ColorStride(w) * h];
    }

    /** IMAGEC(width, height, colorspace, stride, pData): an image over the
        caller's buffer with the caller's stride. */
    constructor Wrap(w: int, h: int, s: int, buf: array<byte>)
      requires 0 <= w && 3 * w <= s < MaxCells && 0 <= h && s * h <= buf.Length && s * h <= MaxCells
      ensures Valid() && width == w && height == h && stride == s && data == buf
    {
      width, height, stride, data := w, h, s, buf;
    }

    /** IMAGEC::GetIndex: the offset of the first channel byte of pixel
        `(x, y)`; its three bytes stay inside row `y`. */
    function GetIndex(x: int, y: int): (i: int)
      reads this
      requires Valid() && 0 <= x < width && 0 <= y < height
      ensures y * stride <= i && i + 2 < (y + 1) * stride
      ensures 0 <= i && i + 2 < stride * height <= data.Length
      ensures i / stride == y && i % stride == x * 3
    {
      ColorSlotBounds(x, y, width, height, stride);
      ColorSlot(x, y, width, height, stride);
      y * stride + x * 3
    }

    /** The pixel grid the buffer encodes (row `y`, column `x`). */
    ghost function Pixels(): (g: seq<seq<Channels>>)
      reads this, data
      requires Valid()
      ensures |g| == height
      ensures forall y :: 0 <= y < height ==> |g[y]| == width
    {
      ColorGrid(data[..], width, height, stride)
    }

    /** IMAGEC::GetValue: the three channel bytes of pixel `(x, y)`. */
    function GetValue(x: int, y: int): (color: Channels)
      reads this, data
      requires Valid() && 0 <= x < width && 0 <= y < height
      ensures color == Pixels()[y][x]
    {
      var index := GetIndex(x, y);
      Channels(data[index], data[index + 1], data[index + 2])
    }

    /** IMAGEC::SetValue: writes the three channel bytes of pixel `(x, y)`;
        no other byte of the buffer changes. */
    method SetValue(x: int, y: int, color: Channels)
      requires Valid() && 0 <= x < width && 0 <= y < height
      modifies data
      ensures Valid()
      ensures data[..] == old(data[..])[GetIndex(x, y) := color.c0]
                                       [GetIndex(x, y) + 1 := color.c1]
                                       [GetIndex(x, y) + 2 := color.c2]
      ensures Pixels() == old(Pixels())[y := old(Pixels())[y][x := color]]
    {
      var index := GetIndex(x, y);
      ColorGridUpdate(data[..], width, height, stride, x, y, color);
      data[index] := color.c0;
      data[index + 1] := color.c1;
      data[index + 2] := color.c2;
    }
  }
}
