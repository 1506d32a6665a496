/**
 * The integral image (summed-area table) as a pure definition.
 *
 * A pixel grid is a sequence of rows, `g[y][x]`. The integral image of a
 * `W`-by-`H` grid has `(W+1)*(H+1)` cells and
 *     II(x, y) = sum of g[y'][x'] over 0 <= x' < x, 0 <= y' < y,
 * so its first row and column are 0. `Block` is an independent reference
 * definition of the pixel sum over a half-open rectangle; the lemmas
 * connect the two (the four-corner formula), give the recurrence a
 * row-major sweep uses, and bound the values.
 */
module Integral {
  import opened Layout

  /** Every row of `g` has exactly `w` pixels. */
  predicate IsGrid(g: seq<seq<int>>, w: int) {
    forall y :: 0 <= y < |g| ==> |g[y]| == w
  }

  /** The first `y` rows of `g` exist and each has at least `x` pixels. */
  predicate Covers(g: seq<seq<int>>, x: int, y: int) {
    0 <= x && 0 <= y <= |g| && forall k :: 0 <= k < y ==> x <= |g[k]|
  }

  /** Every pixel of `g` lies in `[0, c]`. */
  predicate Bounded(g: seq<seq<int>>, c: int) {
    forall y, x :: 0 <= y < |g| && 0 <= x < |g[y]| ==> 0 <= g[y][x] <= c
  }

  /** Sum of the first `x` pixels of a row. */
  function RowPrefix(row: seq<int>, x: nat): int
    requires x <= |row|
  {
    if x == 0 then 0 else RowPrefix(row, x - 1) + row[x - 1]
  }

  /** The integral image: sum of `g[y'][x']` over `x' < x`, `y' < y`. */
  function II(g: seq<seq<int>>, x: nat, y: nat): (s: int)
    requires Covers(g, x, y)
    ensures x == 0 || y == 0 ==> s == 0
  {
    if y == 0 then 0 else II(g, x, y - 1) + RowPrefix(g[y - 1], x)
  }

  /** Reference: sum of `row[x0..x1]`, accumulated from the left. */
  function Span(row: seq<int>, x0: nat, x1: nat): int
    requires x0 <= x1 <= |row|
    decreases x1 - x0
  {
    if x0 == x1 then 0 else row[x0] + Span(row, x0 + 1, x1)
  }

  /** Reference: sum of the pixels in the half-open rectangle
      `[x0, x1) x [y0, y1)`, accumulated from the top row down. */
  function Block(g: seq<seq<int>>, x0: nat, y0: nat, x1: nat, y1: nat): (s: int)
    requires x0 <= x1 && y0 <= y1 && Covers(g, x1, y1)
    ensures x0 == x1 || y0 == y1 ==> s == 0
    decreases y1 - y0
  {
    if y0 == y1 then 0 else Span(g[y0], x0, x1) + Block(g, x0, y0 + 1, x1, y1)
  }

  /** The value a row-major table of width `w+1` holds at offset `j`
      (0 at offsets outside the table). */
  function TableCell(g: seq<seq<int>>, w: nat, j: int): int
    requires IsGrid(g, w)
  {
    if 0 <= j < (w + 1) * (|g| + 1) then
      OffsetInTable(j, w + 1, |g| + 1);
      II(g, ColOf(j, w + 1), RowOf(j, w + 1))
    else
      0
  }

  /** The first `n` entries of `t` are, reduced modulo `m`, the first `n`
      row-major cells of the integral image of the `w`-wide grid `g`. */
  predicate TabulatesPrefix(t: seq<int>, g: seq<seq<int>>, w: nat, m: int, n: int) {
    IsGrid(g, w) && m > 0 && 0 <= n <= |t| &&
    forall j :: 0 <= j < n ==> t[j] == TableCell(g, w, j) % m
  }

  /** Storing the residue of cell `n` right after a correct prefix of
      length `n` extends the prefix by one. */
  lemma PrefixExtend(t: seq<int>, g: seq<seq<int>>, w: nat, m: int, n: int, v: int)
    requires TabulatesPrefix(t, g, w, m, n) && n < |t| && v == TableCell(g, w, n) % m
    ensures TabulatesPrefix(t[n := v], g, w, m, n + 1)
  {
  }

  /** `t` holds, in row-major order and reduced modulo `m`, every cell of
      the integral image of the `w`-wide grid `g`. */
  predicate Tabulates(t: seq<int>, g: seq<seq<int>>, w: nat, m: int) {
    TabulatesPrefix(t, g, w, m, (w + 1) * (|g| + 1))
  }

  /** Cell `(x, y)` of a row-major table of width `w+1` sits at offset
      `y*(w+1) + x`. */
  lemma CellAt(g: seq<seq<int>>, w: nat, x: nat, y: nat, k: int)
    requires IsGrid(g, w) && x <= w && y <= |g|
    requires k == y * (w + 1) + x
    ensures 0 <= k < (w + 1) * (|g| + 1)
    ensures TableCell(g, w, k) == II(g, x, y)
  {
    RowMajor(x, y, w + 1, |g| + 1, w + 1);
    OffsetDecode(x, y, w + 1);
  }

  // ---------------------------------------------------------------------
  // Pixel planes: the linear table sums pixels, the squares table sums
  // squared pixels.

  datatype Plane = Linear | Squared

  /** The largest value a pixel contributes in the given plane. */
  function MaxWeight(plane: Plane): int {
    if plane == Linear then 255 else 255 * 255
  }

  /** What one pixel contributes to the given plane. */
  function Weight(plane: Plane, p: byte): (v: int)
    ensures 0 <= v <= MaxWeight(plane)
    ensures plane == Linear ==> v == p as int
    ensures plane == Squared ==> v == p as int * p as int
  {
    var q := p as int;
    if plane == Linear then q
    else
      MulMono(q, q, 255, 255);
      q * q
  }

  /** A byte grid seen as the integer plane that a table sums. */
  function PlaneOf(g: seq<seq<byte>>, plane: Plane): (r: seq<seq<int>>)
    ensures |r| == |g|
    ensures forall y :: 0 <= y < |g| ==> |r[y]| == |g[y]|
    ensures forall y, x :: 0 <= y < |g| && 0 <= x < |g[y]| ==> r[y][x] == Weight(plane, g[y][x])
    ensures Bounded(r, MaxWeight(plane))
  {
    seq(|g|, y requires 0 <= y < |g| => seq(|g[y]|, x requires 0 <= x < |g[y]| => Weight(plane, g[y][x])))
  }

  // ---------------------------------------------------------------------
  // Properties of the definition.

  /** One step of a row-major sweep: each interior cell follows from its
      left, upper and upper-left neighbours and one pixel. */
  lemma Recurrence(g: seq<seq<int>>, x: nat, y: nat)
    requires Covers(g, x + 1, y + 1)
    ensures II(g, x + 1, y + 1) == II(g, x, y + 1) + II(g, x + 1, y) - II(g, x, y) + g[y][x]
  {
  }

  /** A row segment is the difference of two row prefixes. */
  lemma {:induction false} SpanIsPrefixDifference(row: seq<int>, x0: nat, x1: nat)
    requires x0 <= x1 <= |row|
    ensures Span(row, x0, x1) == RowPrefix(row, x1) - RowPrefix(row, x0)
    decreases x1 - x0
  {
    if x0 < x1 {
      SpanIsPrefixDifference(row, x0 + 1, x1);
    }
  }

  /** The four-corner formula: four integral-image reads give the pixel
      sum of the half-open rectangle `[x0, x1) x [y0, y1)`. */
  lemma {:induction false} FourCorners(g: seq<seq<int>>, x0: nat, y0: nat, x1: nat, y1: nat)
    requires x0 <= x1 && y0 <= y1 && Covers(g, x1, y1)
    ensures Block(g, x0, y0, x1, y1) == II(g, x1, y1) - II(g, x0, y1) - II(g, x1, y0) + II(g, x0, y0)
    decreases y1 - y0
  {
    if y0 < y1 {
      FourCorners(g, x0, y0 + 1, x1, y1);
      SpanIsPrefixDifference(g[y0], x0, x1);
    }
  }

  /** The integral image is the rectangle sum over `[0, x) x [0, y)`. */
  lemma IIIsBlock(g: seq<seq<int>>, x: nat, y: nat)
    requires Covers(g, x, y)
    ensures II(g, x, y) == Block(g, 0, 0, x, y)
  {
    FourCorners(g, 0, 0, x, y);
  }

  /** Bounds of a row prefix of a row whose pixels lie in `[0, c]`. */
  lemma {:induction false} RowPrefixBounds(row: seq<int>, x: nat, c: int)
    requires x <= |row| && forall k :: 0 <= k < |row| ==> 0 <= row[k] <= c
    ensures 0 <= RowPrefix(row, x) <= c * x
  {
    if x > 0 {
      RowPrefixBounds(row, x - 1, c);
    }
  }

  /** With pixels in `[0, c]`, a table cell lies in `[0, c*x*y]`. */
  lemma {:induction false} IIBounds(g: seq<seq<int>>, x: nat, y: nat, c: int)
    requires Covers(g, x, y) && Bounded(g, c)
    ensures 0 <= II(g, x, y) <= c * x * y
  {
    if y > 0 {
      IIBounds(g, x, y - 1, c);
      RowPrefixBounds(g[y - 1], x, c);
      assert c * x * (y - 1) + c * x == c * x * y;
    }
  }

  /** With pixels in `[0, c]`, every cell of the integral image of a
      `w`-by-`h` grid lies in `[0, c*w*h]`. */
  lemma IIWithin(g: seq<seq<int>>, x: nat, y: nat, w: nat, h: nat, c: int)
    requires Covers(g, x, y) && Bounded(g, c) && x <= w && y <= h && 0 <= c
    ensures 0 <= II(g, x, y) <= c * w * h
  {
    IIBounds(g, x, y, c);
    MulMono(x, y, w, h);
    MulMono(c, x * y, c, w * h);
    MulAssoc(c, x, y);
    MulAssoc(c, w, h);
  }

  /** Bounds of a row segment whose pixels lie in `[0, c]`. */
  lemma {:induction false} SpanBounds(row: seq<int>, x0: nat, x1: nat, c: int)
    requires x0 <= x1 <= |row| && forall k :: 0 <= k < |row| ==> 0 <= row[k] <= c
    ensures 0 <= Span(row, x0, x1) <= c * (x1 - x0)
    decreases x1 - x0
  {
    if x0 < x1 {
      SpanBounds(row, x0 + 1, x1, c);
    }
  }

  /** With pixels in `[0, c]`, a rectangle sum lies in `[0, c*area]`. */
  lemma {:induction false} BlockBounds(g: seq<seq<int>>, x0: nat, y0: nat, x1: nat, y1: nat, c: int)
    requires x0 <= x1 && y0 <= y1 && Covers(g, x1, y1) && Bounded(g, c)
    ensures 0 <= Block(g, x0, y0, x1, y1) <= c * (x1 - x0) * (y1 - y0)
    decreases y1 - y0
  {
    if y0 < y1 {
      BlockBounds(g, x0, y0 + 1, x1, y1, c);
      SpanBounds(g[y0], x0, x1, c);
      assert c * (x1 - x0) * (y1 - y0 - 1) + c * (x1 - x0) == c * (x1 - x0) * (y1 - y0);
    }
  }

  /** With non-negative pixels the integral image never decreases along x. */
  lemma {:induction false} MonotoneInX(g: seq<seq<int>>, x: nat, y: nat, c: int)
    requires Covers(g, x + 1, y) && Bounded(g, c)
    ensures II(g, x, y) <= II(g, x + 1, y)
  {
    if y > 0 {
      MonotoneInX(g, x, y - 1, c);
    }
  }

  /** With non-negative pixels the integral image never decreases along y. */
  lemma MonotoneInY(g: seq<seq<int>>, x: nat, y: nat, c: int)
    requires Covers(g, x, y + 1) && Bounded(g, c)
    ensures II(g, x, y) <= II(g, x, y + 1)
  {
    RowPrefixBounds(g[y], x, c);
  }

  // ---------------------------------------------------------------------
  // Modular arithmetic of the fixed-width accumulators.

  /** Adding a multiple of the modulus does not change a residue. */
  lemma ModShift(n: int, k: int, m: int)
    requires m > 0
    ensures (n + k * m) % m == n % m
  {
    var q, r := n / m, n % m;
    DivModUnique(n + k * m, m, q + k, r);
    assert n + k * m == (q + k) * m + r;
  }

  /** Residues of three terms combine like the terms themselves. */
  lemma ModCombine3(a: int, b: int, c: int, p: int, m: int)
    requires m > 0
    ensures (a % m + b % m - c % m + p) % m == (a + b - c + p) % m
  {
    var k := c / m - a / m - b / m;
    assert a % m + b % m - c % m + p == (a + b - c + p) + k * m;
    ModShift(a + b - c + p, k, m);
  }

  /** Residues of four terms combine like the terms themselves. */
  lemma ModCombine4(d: int, b: int, c: int, a: int, m: int)
    requires m > 0
    ensures (d % m - b % m - c % m + a % m) % m == (d - b - c + a) % m
  {
    var k := b / m + c / m - d / m - a / m;
    assert d % m - b % m - c % m + a % m == (d - b - c + a) + k * m;
    ModShift(d - b - c + a, k, m);
  }

  /** The sweep step is correct modulo the accumulator width: combining the
      stored residues of the three neighbours with one pixel gives the
      residue of the cell. */
  lemma SweepStep(g: seq<seq<int>>, x: nat, y: nat, m: int, left: int, up: int, diag: int)
    requires m > 0 && Covers(g, x + 1, y + 1)
    requires left == II(g, x, y + 1) % m
    requires up == II(g, x + 1, y) % m
    requires diag == II(g, x, y) % m
    ensures (left + up - diag + g[y][x]) % m == II(g, x + 1, y + 1) % m
  {
    Recurrence(g, x, y);
    ModCombine3(II(g, x, y + 1), II(g, x + 1, y), II(g, x, y), g[y][x], m);
  }

  /** Four-corner combination modulo `m` of stored residues gives the
      rectangle sum modulo `m`. */
  lemma FourCornersMod(g: seq<seq<int>>, x0: nat, y0: nat, x1: nat, y1: nat, m: int,
                       d: int, b: int, c: int, a: int)
    requires m > 0 && x0 <= x1 && y0 <= y1 && Covers(g, x1, y1)
    requires d == II(g, x1, y1) % m && b == II(g, x0, y1) % m
    requires c == II(g, x1, y0) % m && a == II(g, x0, y0) % m
    ensures (d - b - c + a) % m == Block(g, x0, y0, x1, y1) % m
  {
    FourCorners(g, x0, y0, x1, y1);
    ModCombine4(II(g, x1, y1), II(g, x0, y1), II(g, x1, y0), II(g, x0, y0), m);
  }

  /** A rectangle sum whose bound stays below the modulus is its own residue. */
  lemma BlockExact(g: seq<seq<int>>, x0: nat, y0: nat, x1: nat, y1: nat, c: int, m: int)
    requires m > 0 && x0 <= x1 && y0 <= y1 && Covers(g, x1, y1) && Bounded(g, c)
    ensures c * (x1 - x0) * (y1 - y0) < m ==> Block(g, x0, y0, x1, y1) % m == Block(g, x0, y0, x1, y1)
  {
    BlockBounds(g, x0, y0, x1, y1, c);
    var b, bound := Block(g, x0, y0, x1, y1), c * (x1 - x0) * (y1 - y0);
    if bound < m {
      assert 0 <= b < m;
    }
  }
}
