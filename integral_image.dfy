/**
 * The integral image `I_IMAGE` and the normalised integral image
 * `IN_IMAGE`.
 *
 * `I_IMAGE` stores a `(W+1)`-by-`(H+1)` row-major table of `unsigned int`
 * cells for a `W`-by-`H` gray image; its width and height fields hold the
 * enlarged dimensions. The cells are 32 bits wide, so a cell holds the
 * integral image modulo 2^32; the four-corner rectangle sum is still exact
 * whenever the rectangle's true sum fits in 32 bits.
 *
 * `IN_IMAGE` adds a parallel table of 64-bit `I2TYPE` cells. Its `Init`
 * is modelled as the same sweep over squared pixels, which is what a local
 * variance needs; those sums provably never leave the signed 64-bit range.
 * The inheritance `IN_IMAGE : I_IMAGE` is modelled by composition: a
 * normalised image holds the linear integral image it extends.
 */
module IntegralImages {
  import opened Layout
  import opened Integral
  import opened Image

  /** Modulus of the `unsigned int` cells of `I_IMAGE`. */
  const U32: int := 0x1_0000_0000
  /** Modulus of the 64-bit `I2TYPE` cells of `IN_IMAGE`. */
  const U64: int := 0x1_0000_0000_0000_0000
  /** Largest value of the signed 64-bit `I2TYPE`. */
  const I2Max: int := 0x7FFF_FFFF_FFFF_FFFF

  /** Outcome of a rectangle query: a sum, or a rectangle outside the table. */
  datatype Query<T> = Ok(value: T) | RangeError

  /**
   * Fills `table` with the integral image of `img` in one row-major sweep:
   * the first row and column are 0 and every other cell adds its pixel to
   * its left and upper neighbours and subtracts the upper-left one, in
   * arithmetic modulo `m` (the accumulator width).
   */
  method Fill(table: array<nat>, img: GrayImage, plane: Plane, m: int)
    requires img.Valid() && m > 0
    requires (img.width + 1) * (img.height + 1) <= table.Length
    modifies table
    ensures Tabulates(table[..], PlaneOf(img.Pixels(), plane), img.width, m)
    ensures forall j :: (img.width + 1) * (img.height + 1) <= j < table.Length ==> table[j] == old(table[j])
  {
    var w1, h1 := img.width + 1, img.height + 1;
    ghost var g := PlaneOf(img.Pixels(), plane);
    assert |g| == img.height && IsGrid(g, img.width);
    var y := 0;
    while y < h1
      invariant 0 <= y <= h1
      invariant g == PlaneOf(img.Pixels(), plane) && |g| == img.height
      invariant TabulatesPrefix(table[..], g, img.width, m, y * w1)
      invariant forall j :: w1 * h1 <= j < table.Length ==> table[j] == old(table[j])
    {
      MulMono(y + 1, w1, h1, w1);
      FillRow(table, img, plane, m, y, g);
      y := y + 1;
    }
    assert y * w1 == w1 * h1;
  }

  /** One row of the sweep: given every cell of the rows above, writes
      the cells of row `y` and nothing else. */
  method FillRow(table: array<nat>, img: GrayImage, plane: Plane, m: int, y: int, ghost g: seq<seq<int>>)
    requires img.Valid() && g == PlaneOf(img.Pixels(), plane) && |g| == img.height
    requires 0 <= y <= img.height && (y + 1) * (img.width + 1) <= table.Length
    requires TabulatesPrefix(table[..], g, img.width, m, y * (img.width + 1))
    modifies table
    ensures TabulatesPrefix(table[..], g, img.width, m, (y + 1) * (img.width + 1))
    ensures forall j :: (y + 1) * (img.width + 1) <= j < table.Length ==> table[j] == old(table[j])
  {
    var w1, h1 := img.width + 1, img.height + 1;
    assert (y + 1) * w1 == y * w1 + w1;
    var x, k := 0, y * w1;
    while x < w1
      invariant 0 <= x <= w1 && k == y * w1 + x
      invariant g == PlaneOf(img.Pixels(), plane)
      invariant TabulatesPrefix(table[..], g, img.width, m, k)
      invariant forall j :: (y + 1) * w1 <= j < table.Length ==> table[j] == old(table[j])
    {
      FillCell(table, img, plane, m, x, y, k, g);
      x, k := x + 1, k + 1;
    }
  }

  /** One cell of the sweep: given every earlier cell in row-major order,
      writes cell `(x, y)`, at offset `k`, and nothing else. */
  method FillCell(table: array<nat>, img: GrayImage, plane: Plane, m: int, x: int, y: int, k: int,
                  ghost g: seq<seq<int>>)
    requires img.Valid() && g == PlaneOf(img.Pixels(), plane) && |g| == img.height
    requires 0 <= x <= img.width && 0 <= y <= img.height
    requires k == y * (img.width + 1) + x && k < table.Length
    requires TabulatesPrefix(table[..], g, img.width, m, k)
    modifies table
    ensures TabulatesPrefix(table[..], g, img.width, m, k + 1)
    ensures forall j :: 0 <= j < table.Length && j != k ==> table[j] == old(table[j])
  {
    ghost var before := table[..];
    var v: nat;
    if x == 0 || y == 0 {
      BorderCell(g, img.width, x, y, k);
      v := 0;
    } else {
      var w1 := img.width + 1;
      var p := img.GetValue(x - 1, y - 1);
      assert Weight(plane, p) == g[y - 1][x - 1];
      assert 0 <= k - w1 - 1 by { MulAwayFromZero(y, w1); }
      var left, up, diag := table[k - 1], table[k - w1], table[k - w1 - 1];
      InteriorCell(g, img.width, x, y, k, m, left, up, diag);
      v := (left + up - diag + Weight(plane, p)) % m;
    }
    PrefixExtend(before, g, img.width, m, k, v);
    table[k] := v;
    assert table[..] == before[k := v];
  }

  /** A cell of the first row or column of a table is 0. */
  lemma BorderCell(g: seq<seq<int>>, w: nat, x: nat, y: nat, k: int)
    requires IsGrid(g, w) && x <= w && y <= |g| && (x == 0 || y == 0)
    requires k == y * (w + 1) + x
    ensures 0 <= k < (w + 1) * (|g| + 1) && TableCell(g, w, k) == 0
  {
    RowMajor(x, y, w + 1, |g| + 1, w + 1);
    CellAt(g, w, x, y, k);
  }

  /** The sweep step at offset `k` of interior cell `(x, y)`: the stored
      residues of the cells at `k - 1`, `k - (w+1)` and `k - (w+1) - 1`
      and pixel `(x-1, y-1)` give the residue of cell `k`. */
  lemma InteriorCell(g: seq<seq<int>>, w: nat, x: nat, y: nat, k: int, m: int, left: int, up: int, diag: int)
    requires IsGrid(g, w) && 1 <= x <= w && 1 <= y <= |g| && m > 0
    requires k == y * (w + 1) + x
    requires left == TableCell(g, w, k - 1) % m
    requires up == TableCell(g, w, k - (w + 1)) % m
    requires diag == TableCell(g, w, k - (w + 1) - 1) % m
    ensures (left + up - diag + g[y - 1][x - 1]) % m == TableCell(g, w, k) % m
  {
    var u := k - (w + 1);
    assert u == (y - 1) * (w + 1) + x;
    assert TableCell(g, w, k) == II(g, x, y) by { CellAt(g, w, x, y, k); }
    assert left == II(g, x - 1, y) % m by { CellAt(g, w, x - 1, y, k - 1); }
    assert up == II(g, x, y - 1) % m by { CellAt(g, w, x, y - 1, u); }
    assert diag == II(g, x - 1, y - 1) % m by { CellAt(g, w, x - 1, y - 1, u - 1); }
    SweepStep(g, x - 1, y - 1, m, left, up, diag);
  }

  /** With squared pixels, every cell of a table of at most `MaxCells`
      cells fits in a signed 64-bit `I2TYPE`. */
  lemma SquaresFit(g: seq<seq<int>>, w: nat, j: int)
    requires IsGrid(g, w) && Bounded(g, MaxWeight(Squared))
    requires 0 <= j < (w + 1) * (|g| + 1) <= MaxCells
    ensures 0 <= TableCell(g, w, j) <= I2Max
  {
    OffsetInTable(j, w + 1, |g| + 1);
    var x, y := ColOf(j, w + 1), RowOf(j, w + 1);
    IIBounds(g, x, y, MaxWeight(Squared));
    MulMono(x, y, w + 1, |g| + 1);
    assert MaxWeight(Squared) * x * y <= MaxWeight(Squared) * MaxCells;
  }

  /** The integral image `I_IMAGE`. */
  class IntegralImage {
    /** Table width: the original image's width plus one (`m_width`). */
    var iWidth: int
    /** Table height: the original image's height plus one (`m_height`). */
    var iHeight: int
    /** The row-major cells (`m_iData`); its length is the capacity (`m_memSize`). */
    var iData: array<nat>
    /** Whether `Init` has filled the table since it was allocated. */
    ghost var Built: bool
    /** The pixel grid of the image the table was last built from. */
    ghost var Source: seq<seq<byte>>

    ghost predicate Valid()
      reads this, iData
    {
      1 <= iWidth && 1 <= iHeight &&
      iWidth * iHeight <= iData.Length && iWidth * iHeight <= MaxCells &&
      (Built ==>
        |Source| == iHeight - 1 &&
        (forall y :: 0 <= y < |Source| ==> |Source[y]| == iWidth - 1) &&
        Tabulates(iData[..], PlaneOf(Source, Linear), iWidth - 1, U32))
    }

    /** The integer plane the table sums: the source pixels. */
    ghost function Summed(): (g: seq<seq<int>>)
      reads this
      requires Built && forall y :: 0 <= y < |Source| ==> |Source[y]| == iWidth - 1
      ensures |g| == |Source|
      ensures iWidth >= 1 ==> IsGrid(g, iWidth - 1)
      ensures Bounded(g, 255)
    {
      PlaneOf(Source, Linear)
    }

    /** Allocates an unbuilt table for a `width`-by-`height` image. */
    constructor (width: int, height: int)
      requires 0 <= width && 0 <= height && (width + 1) * (height + 1) <= MaxCells
      ensures Valid() && !Built && fresh(iData)
      ensures GetWidth() == width && GetHeight() == height
    {
      var w1, h1 := width + 1, height + 1;
      var cells := w1 * h1;
      iWidth, iHeight := w1, h1;
      iData := new nat[cells];
      Built := false;
      assert w1 * h1 == cells;
    }

    /** I_IMAGE::GetIndex: the offset of cell `(x, y)`. */
    function GetIndex(x: int, y: int): (i: int)
      reads this, iData
      requires Valid() && 0 <= x < iWidth && 0 <= y < iHeight
      ensures 0 <= i < iWidth * iHeight <= iData.Length
      ensures RowOf(i, iWidth) == y && ColOf(i, iWidth) == x
    {
      OffsetDecode(x, y, iWidth);
      RowMajor(x, y, iWidth, iHeight, iWidth);
      y * iWidth + x
    }

    /** I_IMAGE::GetIWidth: the table's own width; its rows fit in the buffer. */
    function GetIWidth(): (w: int)
      reads this, iData
      requires Valid()
      ensures 1 <= w && w * iHeight <= iData.Length
    {
      iWidth
    }

    /** I_IMAGE::GetIHeight: the table's own height; its rows fit in the buffer. */
    function GetIHeight(): (h: int)
      reads this, iData
      requires Valid()
      ensures 1 <= h && iWidth * h <= iData.Length
    {
      iHeight
    }

    /** I_IMAGE::GetWidth: the original image's width, one less than the table's. */
    function GetWidth(): (w: int)
      reads this, iData
      requires Valid()
      ensures 0 <= w && w + 1 == GetIWidth()
    {
      iWidth - 1
    }

    /** I_IMAGE::GetHeight: the original image's height, one less than the table's. */
    function GetHeight(): (h: int)
      reads this, iData
      requires Valid()
      ensures 0 <= h && h + 1 == GetIHeight()
    {
      iHeight - 1
    }

    /** I_IMAGE::Init: (re)builds the table from a gray image in one
        row-major sweep, reusing the buffer when it is large enough. */
    method Init(img: GrayImage)
      requires Valid() && img.Valid()
      requires (img.width + 1) * (img.height + 1) <= MaxCells
      modifies this, iData
      ensures Valid() && Built
      ensures GetWidth() == img.width && GetHeight() == img.height
      ensures Source == img.Pixels()
      ensures iData == old(iData) || fresh(iData)
    {
      var w1, h1 := img.width + 1, img.height + 1;
      var cells := w1 * h1;
      if iData.Length < cells {
        iData := new nat[cells];
      }
      iWidth, iHeight := w1, h1;
      Fill(iData, img, Linear, U32);
      Source, Built := img.Pixels(), true;
    }

    /** I_IMAGE::GetValue: cell `(x, y)` holds the sum of the pixels above
        and to the left of it, modulo 2^32; exactly that sum for an image
        whose total cannot exceed 32 bits. */
    function GetValue(x: int, y: int): (v: nat)
      reads this, iData
      requires Valid() && Built && 0 <= x < iWidth && 0 <= y < iHeight
      ensures v < U32
      ensures v == II(Summed(), x, y) % U32
      ensures 255 * GetWidth() * GetHeight() < U32 ==> v == II(Summed(), x, y)
    {
      CellAt(Summed(), iWidth - 1, x, y, GetIndex(x, y));
      IIWithin(Summed(), x, y, iWidth - 1, iHeight - 1, 255);
      iData[GetIndex(x, y)]
    }

    /** The first row and the first column of a built table are 0. */
    lemma ZeroRowAndColumn(x: int, y: int)
      requires Valid() && Built && 0 <= x < iWidth && 0 <= y < iHeight
      ensures GetValue(0, y) == 0 && GetValue(x, 0) == 0
    {
    }

    /** The four-corner rectangle sum over `[x0, x1) x [y0, y1)`: the pixel
        sum modulo 2^32, exact when `255 * area < 2^32`; a rectangle
        outside the image is a range error. */
    function RectSum(x0: int, y0: int, x1: int, y1: int): (r: Query<nat>)
      reads this, iData
      requires Valid() && Built
      ensures r.Ok? <==> 0 <= x0 <= x1 <= GetWidth() && 0 <= y0 <= y1 <= GetHeight()
      ensures r.Ok? ==> r.value == Block(Summed(), x0, y0, x1, y1) % U32
      ensures r.Ok? && 255 * (x1 - x0) * (y1 - y0) < U32 ==> r.value == Block(Summed(), x0, y0, x1, y1)
    {
      if 0 <= x0 <= x1 <= GetWidth() && 0 <= y0 <= y1 <= GetHeight() then
        var a, b, c, d := GetValue(x1, y1), GetValue(x0, y1), GetValue(x1, y0), GetValue(x0, y0);
        FourCornersMod(Summed(), x0, y0, x1, y1, U32, a, b, c, d);
        BlockExact(Summed(), x0, y0, x1, y1, 255, U32);
        Ok((a - b - c + d) % U32)
      else
        RangeError
    }
  }

  /** The normalised integral image `IN_IMAGE`. */
  class NormIntegralImage {
    /** The `I_IMAGE` part: the linear table and the dimensions. */
    var linear: IntegralImage
    /** The squares table (`m_llData`), same layout as the linear one. */
    var llData: array<nat>

    ghost predicate Valid()
      reads this, linear, linear.iData, llData
    {
      linear.Valid() && llData != linear.iData &&
      linear.iWidth * linear.iHeight <= llData.Length &&
      (linear.Built ==> Tabulates(llData[..], PlaneOf(linear.Source, Squared), linear.iWidth - 1, U64))
    }

    /** The integer plane the squares table sums: the squared source pixels. */
    ghost function Squares(): (g: seq<seq<int>>)
      reads this, linear, linear.iData, llData
      requires Valid() && linear.Built
      ensures |g| == linear.iHeight - 1 && IsGrid(g, linear.iWidth - 1)
      ensures Bounded(g, MaxWeight(Squared))
    {
      PlaneOf(linear.Source, Squared)
    }

    /** The squares table sums, pixel for pixel, the squares of what the
        linear table sums. */
    lemma SquaresMirrorLinear(x: int, y: int)
      requires Valid() && linear.Built && 0 <= x < linear.GetWidth() && 0 <= y < linear.GetHeight()
      ensures Squares()[y][x] == linear.Summed()[y][x] * linear.Summed()[y][x]
    {
    }

    /** Allocates unbuilt tables for a `width`-by-`height` image. */
    constructor (width: int, height: int)
      requires 0 <= width && 0 <= height && (width + 1) * (height + 1) <= MaxCells
      ensures Valid() && !linear.Built && fresh(linear) && fresh(linear.iData) && fresh(llData)
      ensures linear.GetWidth() == width && linear.GetHeight() == height
    {
      linear := new IntegralImage(width, height);
      llData := new nat[(width + 1) * (height + 1)];
    }

    /** IN_IMAGE::Init: builds the linear table and the squares table from
        a gray image. */
    method Init(img: GrayImage)
      requires Valid() && img.Valid()
      requires (img.width + 1) * (img.height + 1) <= MaxCells
      modifies this, linear, linear.iData, llData
      ensures Valid() && linear == old(linear) && linear.Built
      ensures linear.GetWidth() == img.width && linear.GetHeight() == img.height
      ensures linear.Source == img.Pixels()
      ensures linear.iData == old(linear.iData) || fresh(linear.iData)
      ensures llData == old(llData) || fresh(llData)
    {
      linear.Init(img);
      FillSquares(img);
    }

    /** The second half of `Init`: fills the squares table from the image
        the linear table was just built from. */
    method FillSquares(img: GrayImage)
      requires linear.Valid() && linear.Built && img.Valid()
      requires linear.Source == img.Pixels() && linear.GetWidth() == img.width && linear.GetHeight() == img.height
      requires llData != linear.iData
      modifies this`llData, llData
      ensures Valid() && linear.Built && linear.Source == img.Pixels()
      ensures llData == old(llData) || fresh(llData)
    {
      var cells := (img.width + 1) * (img.height + 1);
      assert linear.iWidth * linear.iHeight == cells;
      if llData.Length < cells {
        llData := new nat[cells];
      }
      Fill(llData, img, Squared, U64);
      assert linear.Valid();
    }

    /** IN_IMAGE::GetValue2: cell `(x, y)` of the squares table holds the
        exact sum of the squared pixels above and to the left of it, a value
        of the signed 64-bit `I2TYPE`. */
    function GetValue2(x: int, y: int): (v: int)
      reads this, linear, linear.iData, llData
      requires Valid() && linear.Built && 0 <= x < linear.iWidth && 0 <= y < linear.iHeight
      ensures 0 <= v <= I2Max
      ensures v == II(Squares(), x, y)
    {
      StoredSquare(x, y);
      llData[linear.GetIndex(x, y)]
    }

    /** The stored squares cell is the exact sum, because the sum modulo
        2^64 that the sweep stores never reaches 2^63. */
    lemma StoredSquare(x: int, y: int)
      requires Valid() && linear.Built && 0 <= x < linear.iWidth && 0 <= y < linear.iHeight
      ensures 0 <= llData[linear.GetIndex(x, y)] <= I2Max
      ensures llData[linear.GetIndex(x, y)] == II(Squares(), x, y)
    {
      var i, g, w := linear.GetIndex(x, y), Squares(), linear.iWidth - 1;
      CellAt(g, w, x, y, i);
      SquaresFit(g, w, i);
      assert llData[..][i] == TableCell(g, w, i) % U64;
    }

    /** The first row and the first column of the squares table are 0,
        as in the linear table. */
    lemma ZeroRowAndColumn2(x: int, y: int)
      requires Valid() && linear.Built && 0 <= x < linear.iWidth && 0 <= y < linear.iHeight
      ensures GetValue2(0, y) == 0 && GetValue2(x, 0) == 0
    {
    }

    /** The four-corner sum of squared pixels over `[x0, x1) x [y0, y1)`,
        the second moment a local variance needs; exact, and a range error
        outside the image. */
    function RectSum2(x0: int, y0: int, x1: int, y1: int): (r: Query<int>)
      reads this, linear, linear.iData, llData
      requires Valid() && linear.Built
      ensures r.Ok? <==> 0 <= x0 <= x1 <= linear.GetWidth() && 0 <= y0 <= y1 <= linear.GetHeight()
      ensures r.Ok? ==> r.value == Block(Squares(), x0, y0, x1, y1)
      ensures r.Ok? ==> 0 <= r.value <= MaxWeight(Squared) * (x1 - x0) * (y1 - y0)
    {
      if 0 <= x0 <= x1 <= linear.GetWidth() && 0 <= y0 <= y1 <= linear.GetHeight() then
        FourCorners(Squares(), x0, y0, x1, y1);
        BlockBounds(Squares(), x0, y0, x1, y1, MaxWeight(Squared));
        Ok(GetValue2(x1, y1) - GetValue2(x0, y1) - GetValue2(x1, y0) + GetValue2(x0, y0))
      else
        RangeError
    }
  }
}
