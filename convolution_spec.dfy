/** What the convolution engine computes, as functions on grid values: the
    point convolution (exact and with every term rounded), the valid and the
    padded grid convolutions, their iterations, and the filtered-pixel
    pipeline; with the properties the engine promises, proved as lemmas. The
    methods of module Convolution are proved against these definitions. */
module ConvolutionSpec {
  import opened Grids
  import opened Pixels

  // ---------------------------------------------------------------------------
  // Point convolution

  /** The inner loop of the point convolution for kernel column i: the sum over
      j < n of g[x + i][y + j] * k[i][j], added up in loop order. */
  ghost function ColumnTerms(g: Grid<real>, x: int, y: int, k: Grid<real>, i: int, n: nat): real {
    if n == 0 then 0.0
    else ColumnTerms(g, x, y, k, i, n - 1) + At(g, x + i, y + n - 1) * At(k, i, n - 1)
  }

  /** The point convolution anchored at (x, y) over the first m kernel columns:
      the sum over i < m, j < kh of g[x + i][y + j] * k[i][j], in loop order. */
  ghost function WindowSum(g: Grid<real>, x: int, y: int, k: Grid<real>, m: nat, kh: nat): real {
    if m == 0 then 0.0
    else WindowSum(g, x, y, k, m - 1, kh) + ColumnTerms(g, x, y, k, m - 1, kh)
  }

  /** ColumnTerms with every term rounded on its own before it is added. */
  ghost function RoundedColumnTerms(g: Grid<real>, x: int, y: int, k: Grid<real>, i: int, n: nat): int {
    if n == 0 then 0
    else RoundedColumnTerms(g, x, y, k, i, n - 1) + Round(At(g, x + i, y + n - 1) * At(k, i, n - 1))
  }

  /** The integer point convolution: the sum of the individually rounded terms
      Round(g[x + i][y + j] * k[i][j]). */
  ghost function RoundedWindowSum(g: Grid<real>, x: int, y: int, k: Grid<real>, m: nat, kh: nat): int {
    if m == 0 then 0
    else RoundedWindowSum(g, x, y, k, m - 1, kh) + RoundedColumnTerms(g, x, y, k, m - 1, kh)
  }

  /** The sum of the weights k[i][j] for j < n. */
  ghost function KernelColumnSum(k: Grid<real>, i: int, n: nat): real {
    if n == 0 then 0.0 else KernelColumnSum(k, i, n - 1) + At(k, i, n - 1)
  }

  /** The sum of the weights k[i][j] for i < m and j < kh. */
  ghost function KernelSum(k: Grid<real>, m: nat, kh: nat): real {
    if m == 0 then 0.0 else KernelSum(k, m - 1, kh) + KernelColumnSum(k, m - 1, kh)
  }

  /** Rounding each term moves it by at most one half, so the integer column
      sum is within n / 2 of the exact one. */
  lemma {:induction false} RoundedColumnError(g: Grid<real>, x: int, y: int, k: Grid<real>, i: int, n: nat)
    ensures ColumnTerms(g, x, y, k, i, n) - (n as real) / 2.0 <= RoundedColumnTerms(g, x, y, k, i, n) as real
    ensures RoundedColumnTerms(g, x, y, k, i, n) as real <= ColumnTerms(g, x, y, k, i, n) + (n as real) / 2.0
  {
    if n > 0 {
      RoundedColumnError(g, x, y, k, i, n - 1);
    }
  }

  /** The integer point convolution is within half a unit per kernel cell,
      (m * kh) / 2 in all, of the exact weighted sum. */
  lemma {:induction false} RoundedWindowError(g: Grid<real>, x: int, y: int, k: Grid<real>, m: nat, kh: nat)
    ensures WindowSum(g, x, y, k, m, kh) - ((m * kh) as real) / 2.0 <= RoundedWindowSum(g, x, y, k, m, kh) as real
    ensures RoundedWindowSum(g, x, y, k, m, kh) as real <= WindowSum(g, x, y, k, m, kh) + ((m * kh) as real) / 2.0
  {
    if m > 0 {
      RoundedWindowError(g, x, y, k, m - 1, kh);
      RoundedColumnError(g, x, y, k, m - 1, kh);
      var before := (m - 1) * kh;
      assert m * kh == before + kh;
      assert ((m * kh) as real) / 2.0 == (before as real) / 2.0 + (kh as real) / 2.0;
    }
  }

  /** Rounding every term is not rounding the total: a 1 x 2 window of ones
      under a kernel of two halves gives 1 + 1 = 2, while the exact sum 1.0
      rounds to 1. */
  lemma RoundingPerTermDiffers()
    ensures RoundedWindowSum([[1.0, 1.0]], 0, 0, [[0.5, 0.5]], 1, 2) == 2
    ensures Round(WindowSum([[1.0, 1.0]], 0, 0, [[0.5, 0.5]], 1, 2)) == 1
  {
    var g, k := [[1.0, 1.0]], [[0.5, 0.5]];
    assert At(g, 0, 0) == 1.0 && At(g, 0, 1) == 1.0;
    assert At(k, 0, 0) == 0.5 && At(k, 0, 1) == 0.5;
    assert ColumnTerms(g, 0, 0, k, 0, 2) == 1.0;
    assert RoundedColumnTerms(g, 0, 0, k, 0, 2) == 2;
  }

  /** A column sum reads only the samples (x + i, y + j) with j < n. */
  lemma {:induction false} ColumnLocality(g1: Grid<real>, g2: Grid<real>, x: int, y: int, k: Grid<real>, i: int, n: nat)
    requires forall a, b :: a == x + i && y <= b < y + n ==> At(g1, a, b) == At(g2, a, b)
    ensures ColumnTerms(g1, x, y, k, i, n) == ColumnTerms(g2, x, y, k, i, n)
  {
    if n > 0 {
      ColumnLocality(g1, g2, x, y, k, i, n - 1);
      assert At(g1, x + i, y + n - 1) == At(g2, x + i, y + n - 1);
    }
  }

  /** The point convolution anchored at (x, y) reads only the window
      [x, x + m) x [y, y + kh): two images that agree there give the same sum. */
  lemma {:induction false} WindowLocality(g1: Grid<real>, g2: Grid<real>, x: int, y: int, k: Grid<real>, m: nat, kh: nat)
    requires forall a, b :: x <= a < x + m && y <= b < y + kh ==> At(g1, a, b) == At(g2, a, b)
    ensures WindowSum(g1, x, y, k, m, kh) == WindowSum(g2, x, y, k, m, kh)
  {
    if m > 0 {
      WindowLocality(g1, g2, x, y, k, m - 1, kh);
      ColumnLocality(g1, g2, x, y, k, m - 1, kh);
    }
  }

  /** Over a window where the image is constant c, a column sum is c times the
      kernel column's weight. */
  lemma {:induction false} UniformColumn(g: Grid<real>, x: int, y: int, k: Grid<real>, i: int, n: nat, c: real)
    requires forall a, b :: a == x + i && y <= b < y + n ==> At(g, a, b) == c
    ensures ColumnTerms(g, x, y, k, i, n) == c * KernelColumnSum(k, i, n)
  {
    if n > 0 {
      UniformColumn(g, x, y, k, i, n - 1, c);
      assert At(g, x + i, y + n - 1) == c;
    }
  }

  /** Over a window where the image is constant c, the point convolution is c
      times the total kernel weight. */
  lemma {:induction false} UniformWindow(g: Grid<real>, x: int, y: int, k: Grid<real>, m: nat, kh: nat, c: real)
    requires forall a, b :: x <= a < x + m && y <= b < y + kh ==> At(g, a, b) == c
    ensures WindowSum(g, x, y, k, m, kh) == c * KernelSum(k, m, kh)
  {
    if m > 0 {
      UniformWindow(g, x, y, k, m - 1, kh, c);
      UniformColumn(g, x, y, k, m - 1, kh, c);
      assert c * KernelSum(k, m, kh) == c * KernelSum(k, m - 1, kh) + c * KernelColumnSum(k, m - 1, kh);
    }
  }

  // ---------------------------------------------------------------------------
  // Grid convolution

  /** The valid convolution of the w x h image g: one point convolution for each
      anchor (i, j) at which the whole kernel lies inside the image. */
  ghost function ValidConv(g: Grid<real>, w: int, h: int, k: Grid<real>, kw: int, kh: int): (r: Grid<real>)
    requires 1 <= kw <= w && 1 <= kh <= h
    ensures IsRect(r, w - kw + 1, h - kh + 1)
  {
    seq(w - kw + 1, i requires 0 <= i < w - kw + 1 =>
      seq(h - kh + 1, j requires 0 <= j < h - kh + 1 => WindowSum(g, i, j, k, kw, kh)))
  }

  /** Cell (x, y) of a padded result is one the valid result is copied into. */
  predicate InValidWindow(x: int, y: int, w: int, h: int, kw: int, kh: int) {
    kw / 2 <= x < kw / 2 + (w - kw + 1) && kh / 2 <= y < kh / 2 + (h - kh + 1)
  }

  /** The padded convolution: a w x h grid holding the valid convolution at
      offset (kw / 2, kh / 2) and zero in every other cell. */
  ghost function PaddedConv(g: Grid<real>, w: int, h: int, k: Grid<real>, kw: int, kh: int): (r: Grid<real>)
    requires 1 <= kw <= w && 1 <= kh <= h
    ensures IsRect(r, w, h)
  {
    var v := ValidConv(g, w, h, k, kw, kh);
    seq(w, x requires 0 <= x < w =>
      seq(h, y requires 0 <= y < h =>
        if InValidWindow(x, y, w, h, kw, kh) then v[x - kw / 2][y - kh / 2] else 0.0))
  }

  /** The valid convolution reads only the first w x h samples of its input:
      images that agree there have the same valid convolution. */
  lemma ValidConvLocality(g1: Grid<real>, g2: Grid<real>, w: int, h: int, k: Grid<real>, kw: int, kh: int)
    requires 1 <= kw <= w && 1 <= kh <= h
    requires forall a, b :: 0 <= a < w && 0 <= b < h ==> At(g1, a, b) == At(g2, a, b)
    ensures ValidConv(g1, w, h, k, kw, kh) == ValidConv(g2, w, h, k, kw, kh)
  {
    forall i, j | 0 <= i < w - kw + 1 && 0 <= j < h - kh + 1
      ensures ValidConv(g1, w, h, k, kw, kh)[i][j] == ValidConv(g2, w, h, k, kw, kh)[i][j]
    {
      WindowLocality(g1, g2, i, j, k, kw, kh);
    }
    RectEq(ValidConv(g1, w, h, k, kw, kh), ValidConv(g2, w, h, k, kw, kh), w - kw + 1, h - kh + 1);
  }

  /** Every sample of g multiplied by c. */
  ghost function Scaled(g: Grid<real>, c: real): (r: Grid<real>)
    ensures |r| == |g| && forall x :: 0 <= x < |g| ==> |r[x]| == |g[x]|
    ensures forall x, y :: 0 <= x < |g| && 0 <= y < |g[x]| ==> r[x][y] == g[x][y] * c
  {
    seq(|g|, x requires 0 <= x < |g| => seq(|g[x]|, y requires 0 <= y < |g[x]| => g[x][y] * c))
  }

  /** A 1 x 1 kernel [[c]] multiplies every sample of the image by c; the kernel
      [[1]] gives the image back unchanged. */
  lemma OneByOneKernel(g: Grid<real>, w: int, h: int, k: Grid<real>)
    requires 1 <= w && 1 <= h && IsRect(g, w, h)
    ensures ValidConv(g, w, h, k, 1, 1) == Scaled(g, At(k, 0, 0))
    ensures At(k, 0, 0) == 1.0 ==> ValidConv(g, w, h, k, 1, 1) == g
  {
    var v, c := ValidConv(g, w, h, k, 1, 1), At(k, 0, 0);
    forall i, j | 0 <= i < w && 0 <= j < h
      ensures v[i][j] == Scaled(g, c)[i][j]
    {
      assert ColumnTerms(g, i, j, k, 0, 1) == At(g, i, j) * c;
      assert WindowSum(g, i, j, k, 1, 1) == ColumnTerms(g, i, j, k, 0, 1);
      assert v[i][j] == WindowSum(g, i, j, k, 1, 1);
      assert At(g, i, j) == g[i][j];
    }
    RectEq(v, Scaled(g, c), w, h);
    if c == 1.0 {
      RectEq(v, g, w, h);
    }
  }

  /** The w x h grid with every sample c. */
  ghost function Constant(w: nat, h: nat, c: real): (r: Grid<real>)
    ensures IsRect(r, w, h) && forall x, y :: 0 <= x < w && 0 <= y < h ==> r[x][y] == c
  {
    seq(w, x => seq(h, y => c))
  }

  /** Every sample of the w x h image g is c. */
  ghost predicate Uniform(g: Grid<real>, w: int, h: int, c: real) {
    forall a, b :: 0 <= a < w && 0 <= b < h ==> At(g, a, b) == c
  }

  /** A uniform image of grey c convolves to a uniform valid result: c times
      the total kernel weight in every cell. */
  lemma UniformValid(g: Grid<real>, w: int, h: int, k: Grid<real>, kw: int, kh: int, c: real)
    requires 1 <= kw <= w && 1 <= kh <= h
    requires Uniform(g, w, h, c)
    ensures forall i, j :: 0 <= i < w - kw + 1 && 0 <= j < h - kh + 1 ==>
      ValidConv(g, w, h, k, kw, kh)[i][j] == c * KernelSum(k, kw, kh)
  {
    forall i, j | 0 <= i < w - kw + 1 && 0 <= j < h - kh + 1
      ensures ValidConv(g, w, h, k, kw, kh)[i][j] == c * KernelSum(k, kw, kh)
    {
      UniformWindow(g, i, j, k, kw, kh, c);
    }
  }

  /** Worked example: the 3 x 3 image 1..9 under the kernel [[2]] doubles. */
  lemma DoublingExample()
    ensures ValidConv([[1.0, 2.0, 3.0], [4.0, 5.0, 6.0], [7.0, 8.0, 9.0]], 3, 3, [[2.0]], 1, 1)
         == [[2.0, 4.0, 6.0], [8.0, 10.0, 12.0], [14.0, 16.0, 18.0]]
  {
    var g := [[1.0, 2.0, 3.0], [4.0, 5.0, 6.0], [7.0, 8.0, 9.0]];
    OneByOneKernel(g, 3, 3, [[2.0]]);
    var r := [[2.0, 4.0, 6.0], [8.0, 10.0, 12.0], [14.0, 16.0, 18.0]];
    RectEq(Scaled(g, 2.0), r, 3, 3);
  }

  /** Worked example: a 4 x 4 image of ones under a 2 x 2 kernel of ones gives
      a 3 x 3 grid of fours. */
  lemma OnesExample()
    ensures ValidConv(Constant(4, 4, 1.0), 4, 4, Constant(2, 2, 1.0), 2, 2) == Constant(3, 3, 4.0)
  {
    var k := Constant(2, 2, 1.0);
    UniformValid(Constant(4, 4, 1.0), 4, 4, k, 2, 2, 1.0);
    assert At(k, 0, 0) == At(k, 0, 1) == At(k, 1, 0) == At(k, 1, 1) == 1.0;
    assert KernelSum(k, 2, 2) == 4.0;
    RectEq(ValidConv(Constant(4, 4, 1.0), 4, 4, k, 2, 2), Constant(3, 3, 4.0), 3, 3);
  }

  /** Every anchor (i, j) of the valid result has its copy at (i + kw / 2,
      j + kh / 2), a cell inside the w x h padded result. */
  lemma PaddedWindow(g: Grid<real>, w: int, h: int, k: Grid<real>, kw: int, kh: int, i: int, j: int)
    requires 1 <= kw <= w && 1 <= kh <= h
    requires 0 <= i < w - kw + 1 && 0 <= j < h - kh + 1
    ensures i + kw / 2 < w && j + kh / 2 < h
    ensures PaddedConv(g, w, h, k, kw, kh)[i + kw / 2][j + kh / 2] == ValidConv(g, w, h, k, kw, kh)[i][j]
    ensures PaddedConv(g, w, h, k, kw, kh)[i + kw / 2][j + kh / 2] == WindowSum(g, i, j, k, kw, kh)
  {
    assert InValidWindow(i + kw / 2, j + kh / 2, w, h, kw, kh);
  }

  /** Every cell of the padded result outside the copied window is zero. */
  lemma PaddedBorder(g: Grid<real>, w: int, h: int, k: Grid<real>, kw: int, kh: int, x: int, y: int)
    requires 1 <= kw <= w && 1 <= kh <= h
    requires 0 <= x < w && 0 <= y < h && !InValidWindow(x, y, w, h, kw, kh)
    ensures PaddedConv(g, w, h, k, kw, kh)[x][y] == 0.0
  {
  }

  // ---------------------------------------------------------------------------
  // Iterated convolution

  /** n valid convolutions in a row, each applied to the previous result, with
      the tracked size shrinking by (kw - 1, kh - 1) each time. */
  ghost function IterValid(g: Grid<real>, w: int, h: int, k: Grid<real>, kw: int, kh: int, n: nat): (r: Grid<real>)
    requires n > 0 ==> 1 <= kw && 1 <= kh && 1 <= w - n * (kw - 1) && 1 <= h - n * (kh - 1)
    ensures n > 0 ==> IsRect(r, w - n * (kw - 1), h - n * (kh - 1))
    decreases n
  {
    if n == 0 then g
    else
      ShrinkFits(w, kw, n);
      ShrinkFits(h, kh, n);
      IterValid(ValidConv(g, w, h, k, kw, kh), w - kw + 1, h - kh + 1, k, kw, kh, n - 1)
  }

  /** n padded convolutions in a row, each applied to the previous result. */
  ghost function IterPadded(g: Grid<real>, w: int, h: int, k: Grid<real>, kw: int, kh: int, n: nat): (r: Grid<real>)
    requires n > 0 ==> 1 <= kw <= w && 1 <= kh <= h
    ensures n > 0 ==> IsRect(r, w, h)
    decreases n
  {
    if n == 0 then g
    else IterPadded(PaddedConv(g, w, h, k, kw, kh), w, h, k, kw, kh, n - 1)
  }

  /** If n shrinking steps leave a positive size, the first step has room for
      the kernel and the remaining n - 1 steps still leave the same size. */
  lemma ShrinkFits(w: int, kw: int, n: int)
    requires 1 <= kw && 1 <= n && 1 <= w - n * (kw - 1)
    ensures kw <= w
    ensures (w - kw + 1) - (n - 1) * (kw - 1) == w - n * (kw - 1)
  {
    assert n * (kw - 1) == (n - 1) * (kw - 1) + (kw - 1);
    assert (n - 1) * (kw - 1) >= 0;
  }

  /** The n-th valid convolution is applied to the result of the first n - 1,
      at the size they leave: the input of each iteration is exactly the output
      of the iteration before. */
  lemma {:induction false} IterValidLast(g: Grid<real>, w: int, h: int, k: Grid<real>, kw: int, kh: int, n: nat)
    requires 1 <= n && 1 <= kw && 1 <= kh && 1 <= w - n * (kw - 1) && 1 <= h - n * (kh - 1)
    ensures kw <= w - (n - 1) * (kw - 1) && kh <= h - (n - 1) * (kh - 1)
    ensures IterValid(g, w, h, k, kw, kh, n)
         == ValidConv(IterValid(g, w, h, k, kw, kh, n - 1), w - (n - 1) * (kw - 1), h - (n - 1) * (kh - 1), k, kw, kh)
    decreases n
  {
    ShrinkFits(w, kw, n);
    ShrinkFits(h, kh, n);
    if n > 1 {
      IterValidLast(ValidConv(g, w, h, k, kw, kh), w - kw + 1, h - kh + 1, k, kw, kh, n - 1);
      assert (w - kw + 1) - (n - 2) * (kw - 1) == w - (n - 1) * (kw - 1);
      assert (h - kh + 1) - (n - 2) * (kh - 1) == h - (n - 1) * (kh - 1);
    }
  }

  /** The n-th padded convolution is applied to the result of the first n - 1. */
  lemma {:induction false} IterPaddedLast(g: Grid<real>, w: int, h: int, k: Grid<real>, kw: int, kh: int, n: nat)
    requires 1 <= n && 1 <= kw <= w && 1 <= kh <= h
    ensures IterPadded(g, w, h, k, kw, kh, n) == PaddedConv(IterPadded(g, w, h, k, kw, kh, n - 1), w, h, k, kw, kh)
    decreases n
  {
    if n > 1 {
      IterPaddedLast(PaddedConv(g, w, h, k, kw, kh), w, h, k, kw, kh, n - 1);
    }
  }

  // ---------------------------------------------------------------------------
  // Filtered-pixel pipeline

  /** The red channel of every pixel, as a grey level. */
  ghost function RedChannel(pixels: seq<int>): (s: seq<real>)
    ensures |s| == |pixels| && forall n :: 0 <= n < |pixels| ==> s[n] == Red(pixels[n]) as real
  {
    seq(|pixels|, n requires 0 <= n < |pixels| => Red(pixels[n]) as real)
  }

  /** The grey image convolution_image reads from a row-major pixel buffer:
      sample (i, j) is the red channel of pixel j * w + i. */
  ghost function GreyImage(pixels: seq<int>, w: int, h: int): (g: Grid<real>)
    requires 0 <= w && 0 <= h && w * h <= |pixels|
    ensures IsRect(g, w, h)
  {
    Unflatten(RedChannel(pixels), w, h)
  }

  /** The last two stages of convolution_image on a w x h grey image g: its
      padded convolution flattened row-major, then Round(v * scale + offset),
      clamped to [0, 255] and packed. */
  ghost function FilterGrid(g: Grid<real>, w: int, h: int, k: Grid<real>, kw: int, kh: int,
                            scale: real, offset: real): (r: seq<int>)
    requires 1 <= kw <= w && 1 <= kh <= h
    ensures |r| == w * h
  {
    var conv := Flatten(PaddedConv(g, w, h, k, kw, kh), w, h);
    seq(w * h, n requires 0 <= n < w * h => Pack(Level(conv[n], scale, offset)))
  }

  /** convolution_image: the grey image read from the pixels, filtered. */
  ghost function FilterImage(pixels: seq<int>, w: int, h: int, k: Grid<real>, kw: int, kh: int,
                             scale: real, offset: real): (r: seq<int>)
    requires 1 <= kw <= w && 1 <= kh <= h && w * h <= |pixels|
    ensures |r| == w * h
  {
    FilterGrid(GreyImage(pixels, w, h), w, h, k, kw, kh, scale, offset)
  }

  /** The grey level convolution_image makes of one convolved value v:
      Round(v * scale + offset), clamped into [0, 255] only after rounding. */
  function Level(v: real, scale: real, offset: real): (l: int)
    ensures 0 <= l <= 255
  {
    Clamp(Round(v * scale + offset))
  }

  /** Pixel (i, j) of the filtered image is an opaque grey pixel whose level is
      the padded convolution at (i, j), scaled, offset and rounded, and only
      then clamped into [0, 255]. */
  lemma FilterImagePixel(pixels: seq<int>, w: int, h: int, k: Grid<real>, kw: int, kh: int,
                         scale: real, offset: real, i: int, j: int)
    requires 1 <= kw <= w && 1 <= kh <= h && w * h <= |pixels|
    requires 0 <= i < w && 0 <= j < h
    ensures 0 <= j * w + i < w * h
    ensures FilterImage(pixels, w, h, k, kw, kh, scale, offset)[j * w + i]
         == Pack(Level(PaddedConv(GreyImage(pixels, w, h), w, h, k, kw, kh)[i][j], scale, offset))
    ensures Red(FilterImage(pixels, w, h, k, kw, kh, scale, offset)[j * w + i])
         == Level(PaddedConv(GreyImage(pixels, w, h), w, h, k, kw, kh)[i][j], scale, offset)
    ensures Alpha(FilterImage(pixels, w, h, k, kw, kh, scale, offset)[j * w + i]) == 255
  {
    var p := PaddedConv(GreyImage(pixels, w, h), w, h, k, kw, kh);
    FilterGridValue(GreyImage(pixels, w, h), w, h, k, kw, kh, scale, offset, i, j, p[i][j]);
    PackChannels(Level(p[i][j], scale, offset));
  }

  /** Cell (i, j) of the filtered grid is the grey pixel of Level(v, scale,
      offset) for the value v the padded convolution has at (i, j). */
  lemma FilterGridValue(g: Grid<real>, w: int, h: int, k: Grid<real>, kw: int, kh: int,
                        scale: real, offset: real, i: int, j: int, v: real)
    requires 1 <= kw <= w && 1 <= kh <= h
    requires 0 <= i < w && 0 <= j < h
    requires PaddedConv(g, w, h, k, kw, kh)[i][j] == v
    ensures 0 <= j * w + i < w * h
    ensures FilterGrid(g, w, h, k, kw, kh, scale, offset)[j * w + i] == Pack(Level(v, scale, offset))
  {
    FlattenAt(PaddedConv(g, w, h, k, kw, kh), w, h, i, j);
  }

  /** Inside the copied window, the padded convolution of a uniform image of
      grey c under a kernel of total weight `weight` is c * weight. */
  lemma PaddedUniform(g: Grid<real>, w: int, h: int, k: Grid<real>, kw: int, kh: int, c: real, weight: real,
                      x: int, y: int)
    requires 1 <= kw <= w && 1 <= kh <= h
    requires Uniform(g, w, h, c)
    requires weight == KernelSum(k, kw, kh)
    requires 0 <= x < w && 0 <= y < h && InValidWindow(x, y, w, h, kw, kh)
    ensures PaddedConv(g, w, h, k, kw, kh)[x][y] == c * weight
  {
    var i, j := x - kw / 2, y - kh / 2;
    assert 0 <= i < w - kw + 1 && 0 <= j < h - kh + 1;
    assert WindowSum(g, i, j, k, kw, kh) == c * weight by {
      assert forall a, b :: i <= a < i + kw && j <= b < j + kh ==> At(g, a, b) == c;
      UniformWindow(g, i, j, k, kw, kh, c);
    }
    PaddedWindow(g, w, h, k, kw, kh, i, j);
  }

  /** The padded convolution of a uniform image of grey c under a kernel of
      total weight `weight`: c * weight inside the copied window, 0 outside. */
  lemma UniformPadded(g: Grid<real>, w: int, h: int, k: Grid<real>, kw: int, kh: int, c: real, weight: real,
                      x: int, y: int)
    requires 1 <= kw <= w && 1 <= kh <= h
    requires Uniform(g, w, h, c)
    requires weight == KernelSum(k, kw, kh)
    requires 0 <= x < w && 0 <= y < h
    ensures InValidWindow(x, y, w, h, kw, kh) ==> PaddedConv(g, w, h, k, kw, kh)[x][y] == c * weight
    ensures !InValidWindow(x, y, w, h, kw, kh) ==> PaddedConv(g, w, h, k, kw, kh)[x][y] == 0.0
  {
    if InValidWindow(x, y, w, h, kw, kh) {
      PaddedUniform(g, w, h, k, kw, kh, c, weight, x, y);
    } else {
      PaddedBorder(g, w, h, k, kw, kh, x, y);
    }
  }

  /** Pixels whose red channels are all c give the uniform grey image c. */
  lemma GreyImageUniform(pixels: seq<int>, w: int, h: int, c: int)
    requires 0 <= w && 0 <= h && w * h <= |pixels|
    requires forall n :: 0 <= n < w * h ==> Red(pixels[n]) == c
    ensures Uniform(GreyImage(pixels, w, h), w, h, c as real)
  {
    var g := GreyImage(pixels, w, h);
    forall a, b | 0 <= a < w && 0 <= b < h
      ensures At(g, a, b) == c as real
    {
      FlatIndex(a, b, w, h);
      assert g[a][b] == RedChannel(pixels)[b * w + a];
    }
  }

  /** On a uniform w x h image of grey c under a kernel of total weight
      `weight`, the filtered grid is the grey pixel of level Level(c * weight,
      scale, offset) wherever the valid result was copied, and of level
      Level(0, scale, offset), that is Clamp(Round(offset)), on the zero
      border. */
  lemma FilterUniform(g: Grid<real>, w: int, h: int, k: Grid<real>, kw: int, kh: int,
                      scale: real, offset: real, c: real, weight: real, i: int, j: int)
    requires 1 <= kw <= w && 1 <= kh <= h
    requires Uniform(g, w, h, c)
    requires weight == KernelSum(k, kw, kh)
    requires 0 <= i < w && 0 <= j < h
    ensures 0 <= j * w + i < w * h
    ensures FilterGrid(g, w, h, k, kw, kh, scale, offset)[j * w + i]
         == if InValidWindow(i, j, w, h, kw, kh) then Pack(Level(c * weight, scale, offset))
            else Pack(Level(0.0, scale, offset))
  {
    if InValidWindow(i, j, w, h, kw, kh) {
      PaddedUniform(g, w, h, k, kw, kh, c, weight, i, j);
      FilterGridValue(g, w, h, k, kw, kh, scale, offset, i, j, c * weight);
    } else {
      PaddedBorder(g, w, h, k, kw, kh, i, j);
      FilterGridValue(g, w, h, k, kw, kh, scale, offset, i, j, 0.0);
    }
  }

  /** convolution_image in the normalised-kernel case: with total weight 1,
      scale 1 and offset 0, a pixel buffer whose red channels are all c stays
      c wherever the valid result was copied and becomes 0 on the border. */
  lemma FilterUniformNormalised(pixels: seq<int>, w: int, h: int, k: Grid<real>, kw: int, kh: int,
                                c: int, i: int, j: int)
    requires 1 <= kw <= w && 1 <= kh <= h && w * h <= |pixels|
    requires 0 <= c <= 255 && forall n :: 0 <= n < w * h ==> Red(pixels[n]) == c
    requires KernelSum(k, kw, kh) == 1.0
    requires 0 <= i < w && 0 <= j < h
    ensures 0 <= j * w + i < w * h
    ensures Red(FilterImage(pixels, w, h, k, kw, kh, 1.0, 0.0)[j * w + i])
         == if InValidWindow(i, j, w, h, kw, kh) then c else 0
  {
    GreyImageUniform(pixels, w, h, c);
    FilterUniform(GreyImage(pixels, w, h), w, h, k, kw, kh, 1.0, 0.0, c as real, 1.0, i, j);
    RoundOfInteger(c);
    RoundOfInteger(0);
    PackChannels(c);
    PackChannels(0);
  }
}
