/** The convolution engine of class Convolution and its companion object, as
    methods over arrays. Images and kernels are two-dimensional arrays indexed
    [x, y]; pixel buffers and flattened results are one-dimensional arrays in
    row-major order. Each method is proved against the function of module
    ConvolutionSpec that says what it computes. */
module Convolution {
  import opened Grids
  import opened Pixels
  import opened ConvolutionSpec

  /** singlePixelConvolution: the weighted sum of the kernelWidth x kernelHeight
      window of input anchored at (x, y). */
  method SinglePixelConvolution(input: array2<real>, x: nat, y: nat, k: array2<real>,
                                kernelWidth: nat, kernelHeight: nat) returns (output: real)
    requires x + kernelWidth <= input.Length0 && y + kernelHeight <= input.Length1
    requires kernelWidth <= k.Length0 && kernelHeight <= k.Length1
    ensures output == WindowSum(Contents(input), x, y, Contents(k), kernelWidth, kernelHeight)
  {
    ghost var g, kg := Contents(input), Contents(k);
    output := 0.0;
    for i := 0 to kernelWidth
      invariant output == WindowSum(g, x, y, kg, i, kernelHeight)
    {
      for j := 0 to kernelHeight
        invariant output == WindowSum(g, x, y, kg, i, kernelHeight) + ColumnTerms(g, x, y, kg, i, j)
      {
        assert ColumnTerms(g, x, y, kg, i, j + 1)
            == ColumnTerms(g, x, y, kg, i, j) + input[x + i, y + j] * k[i, j] by {
          assert At(g, x + i, y + j) == input[x + i, y + j] && At(kg, i, j) == k[i, j];
        }
        output := output + input[x + i, y + j] * k[i, j];
      }
    }
  }

  /** applyConvolution: the integer point convolution, which rounds every term
      before adding it. */
  method ApplyConvolution(input: array2<int>, x: nat, y: nat, k: array2<real>,
                          kernelWidth: nat, kernelHeight: nat) returns (output: int)
    requires x + kernelWidth <= input.Length0 && y + kernelHeight <= input.Length1
    requires kernelWidth <= k.Length0 && kernelHeight <= k.Length1
    ensures output == RoundedWindowSum(RealContents(input), x, y, Contents(k), kernelWidth, kernelHeight)
  {
    ghost var g, kg := RealContents(input), Contents(k);
    output := 0;
    for i := 0 to kernelWidth
      invariant output == RoundedWindowSum(g, x, y, kg, i, kernelHeight)
    {
      for j := 0 to kernelHeight
        invariant output == RoundedWindowSum(g, x, y, kg, i, kernelHeight) + RoundedColumnTerms(g, x, y, kg, i, j)
      {
        assert RoundedColumnTerms(g, x, y, kg, i, j + 1)
            == RoundedColumnTerms(g, x, y, kg, i, j) + Round((input[x + i, y + j] as real) * k[i, j]) by {
          assert At(g, x + i, y + j) == input[x + i, y + j] as real && At(kg, i, j) == k[i, j];
        }
        output := output + Round((input[x + i, y + j] as real) * k[i, j]);
      }
    }
  }

  /** convolution2D: the valid convolution of the width x height image, a fresh
      (width - kernelWidth + 1) x (height - kernelHeight + 1) array. */
  method Convolution2D(input: array2<real>, width: int, height: int, kernel: array2<real>,
                       kernelWidth: int, kernelHeight: int) returns (output: array2<real>)
    requires 1 <= kernelWidth <= width <= input.Length0 && 1 <= kernelHeight <= height <= input.Length1
    requires kernelWidth <= kernel.Length0 && kernelHeight <= kernel.Length1
    ensures fresh(output)
    ensures output.Length0 == width - kernelWidth + 1 && output.Length1 == height - kernelHeight + 1
    ensures Contents(output) == ValidConv(Contents(input), width, height, Contents(kernel), kernelWidth, kernelHeight)
  {
    var smallWidth := width - kernelWidth + 1;
    var smallHeight := height - kernelHeight + 1;
    output := new real[smallWidth, smallHeight];
    for i := 0 to smallWidth
      invariant forall x, y :: 0 <= x < i && 0 <= y < smallHeight ==> output[x, y] == 0.0
    {
      for j := 0 to smallHeight
        invariant forall x, y :: 0 <= x < i && 0 <= y < smallHeight ==> output[x, y] == 0.0
        invariant forall y :: 0 <= y < j ==> output[i, y] == 0.0
      {
        output[i, j] := 0.0;
      }
    }
    FillValid(input, width, height, kernel, kernelWidth, kernelHeight, output);
  }

  /** The second loop of convolution2D: sample (i, j) of output becomes the
      point convolution anchored at (i, j). */
  method FillValid(input: array2<real>, width: int, height: int, kernel: array2<real>,
                   kernelWidth: int, kernelHeight: int, output: array2<real>)
    requires 1 <= kernelWidth <= width <= input.Length0 && 1 <= kernelHeight <= height <= input.Length1
    requires kernelWidth <= kernel.Length0 && kernelHeight <= kernel.Length1
    requires output != input && output != kernel
    requires forall x, y :: 0 <= x < output.Length0 && 0 <= y < output.Length1 ==> output[x, y] == 0.0
    requires output.Length0 == width - kernelWidth + 1 && output.Length1 == height - kernelHeight + 1
    modifies output
    ensures Contents(output) == ValidConv(Contents(input), width, height, Contents(kernel), kernelWidth, kernelHeight)
  {
    ghost var g, kg := Contents(input), Contents(kernel);
    ghost var v := ValidConv(g, width, height, kg, kernelWidth, kernelHeight);
    for i := 0 to output.Length0
      invariant forall x, y :: 0 <= x < output.Length0 && 0 <= y < output.Length1 ==>
        output[x, y] == Filled(g, kg, kernelWidth, kernelHeight, i, 0, x, y)
    {
      for j := 0 to output.Length1
        invariant forall x, y :: 0 <= x < output.Length0 && 0 <= y < output.Length1 ==>
          output[x, y] == Filled(g, kg, kernelWidth, kernelHeight, i, j, x, y)
      {
        output[i, j] := SinglePixelConvolution(input, i, j, kernel, kernelWidth, kernelHeight);
      }
    }
    RectEq(Contents(output), v, output.Length0, output.Length1);
  }

  /** The valid result while its fill loop runs: the cells before (i, j) in
      loop order hold their point convolution, the others still hold zero. */
  ghost function Filled(g: Grid<real>, kg: Grid<real>, kw: nat, kh: nat, i: int, j: int, x: int, y: int): real {
    if x < i || (x == i && y < j) then WindowSum(g, x, y, kg, kw, kh) else 0.0
  }

  /** convolution2DPadded: a fresh width x height array holding the valid
      convolution at offset (kernelWidth / 2, kernelHeight / 2) and zero
      everywhere else. */
  method Convolution2DPadded(input: array2<real>, width: int, height: int, kernel: array2<real>,
                             kernelWidth: int, kernelHeight: int) returns (large: array2<real>)
    requires 1 <= kernelWidth <= width <= input.Length0 && 1 <= kernelHeight <= height <= input.Length1
    requires kernelWidth <= kernel.Length0 && kernelHeight <= kernel.Length1
    ensures fresh(large)
    ensures large.Length0 == width && large.Length1 == height
    ensures forall i, j :: 0 <= i < width - kernelWidth + 1 && 0 <= j < height - kernelHeight + 1 ==>
      i + kernelWidth / 2 < width && j + kernelHeight / 2 < height &&
      large[i + kernelWidth / 2, j + kernelHeight / 2]
        == WindowSum(Contents(input), i, j, Contents(kernel), kernelWidth, kernelHeight)
    ensures forall x, y ::
      (0 <= x < width && 0 <= y < height && !InValidWindow(x, y, width, height, kernelWidth, kernelHeight))
      ==> large[x, y] == 0.0
    ensures Contents(large) == PaddedConv(Contents(input), width, height, Contents(kernel), kernelWidth, kernelHeight)
  {
    ghost var g, kg := Contents(input), Contents(kernel);
    var smallWidth := width - kernelWidth + 1;
    var smallHeight := height - kernelHeight + 1;
    var top := kernelHeight / 2;
    var left := kernelWidth / 2;
    var small := Convolution2D(input, width, height, kernel, kernelWidth, kernelHeight);
    large := Zeros(width, height);
    CopyAt(small, large, left, top);
    CopiedIsPadded(small, large, g, width, height, kg, kernelWidth, kernelHeight);
  }

  /** The first loop of convolution2DPadded: a fresh width x height array set
      to zero row by row. */
  method Zeros(width: int, height: int) returns (large: array2<real>)
    requires 0 <= width && 0 <= height
    ensures fresh(large) && large.Length0 == width && large.Length1 == height
    ensures forall x, y :: 0 <= x < width && 0 <= y < height ==> large[x, y] == 0.0
  {
    large := new real[width, height];
    for j := 0 to height
      invariant forall x, y :: 0 <= x < width && 0 <= y < j ==> large[x, y] == 0.0
    {
      for i := 0 to width
        invariant forall x, y :: 0 <= x < width && 0 <= y < j ==> large[x, y] == 0.0
        invariant forall x :: 0 <= x < i ==> large[x, j] == 0.0
      {
        large[i, j] := 0.0;
      }
    }
  }

  /** The second loop of convolution2DPadded: every sample (i, j) of small is
      written to (i + left, j + top) of the zeroed array large. */
  method CopyAt(small: array2<real>, large: array2<real>, left: nat, top: nat)
    requires small != large
    requires left + small.Length0 <= large.Length0 && top + small.Length1 <= large.Length1
    requires forall x, y :: 0 <= x < large.Length0 && 0 <= y < large.Length1 ==> large[x, y] == 0.0
    modifies large
    ensures forall x, y :: 0 <= x < large.Length0 && 0 <= y < large.Length1 ==>
      large[x, y] == Copied(small, left, top, small.Length1, 0, x, y)
  {
    for j := 0 to small.Length1
      invariant forall x, y :: 0 <= x < large.Length0 && 0 <= y < large.Length1 ==>
        large[x, y] == Copied(small, left, top, j, 0, x, y)
    {
      for i := 0 to small.Length0
        invariant forall x, y :: 0 <= x < large.Length0 && 0 <= y < large.Length1 ==>
          large[x, y] == Copied(small, left, top, j, i, x, y)
      {
        large[i + left, j + top] := small[i, j];
      }
    }
  }

  /** Once the copy loop of convolution2DPadded has run, the array holds the
      padded convolution: the copied window and zero around it. */
  lemma CopiedIsPadded(small: array2<real>, large: array2<real>, g: Grid<real>, w: int, h: int,
                       kg: Grid<real>, kw: int, kh: int)
    requires 1 <= kw <= w && 1 <= kh <= h
    requires small.Length0 == w - kw + 1 && small.Length1 == h - kh + 1
    requires Contents(small) == ValidConv(g, w, h, kg, kw, kh)
    requires large.Length0 == w && large.Length1 == h
    requires forall x, y :: 0 <= x < w && 0 <= y < h ==> large[x, y] == Copied(small, kw / 2, kh / 2, h - kh + 1, 0, x, y)
    ensures Contents(large) == PaddedConv(g, w, h, kg, kw, kh)
    ensures forall i, j :: 0 <= i < w - kw + 1 && 0 <= j < h - kh + 1 ==>
      i + kw / 2 < w && j + kh / 2 < h && large[i + kw / 2, j + kh / 2] == WindowSum(g, i, j, kg, kw, kh)
    ensures forall x, y :: (0 <= x < w && 0 <= y < h && !InValidWindow(x, y, w, h, kw, kh)) ==> large[x, y] == 0.0
  {
    var left, top := kw / 2, kh / 2;
    var p := PaddedConv(g, w, h, kg, kw, kh);
    forall x, y | 0 <= x < w && 0 <= y < h
      ensures Contents(large)[x][y] == p[x][y]
    {
      CopiedCell(small, g, w, h, kg, kw, kh, x, y);
    }
    RectEq(Contents(large), p, w, h);
    forall i, j | 0 <= i < w - kw + 1 && 0 <= j < h - kh + 1
      ensures i + left < w && j + top < h && large[i + left, j + top] == WindowSum(g, i, j, kg, kw, kh)
    {
      PaddedWindow(g, w, h, kg, kw, kh, i, j);
    }
    forall x, y | 0 <= x < w && 0 <= y < h && !InValidWindow(x, y, w, h, kw, kh)
      ensures large[x, y] == 0.0
    {
      PaddedBorder(g, w, h, kg, kw, kh, x, y);
    }
  }

  /** Cell (x, y) of the copied array is cell (x, y) of the padded convolution. */
  lemma CopiedCell(small: array2<real>, g: Grid<real>, w: int, h: int, kg: Grid<real>, kw: int, kh: int,
                   x: int, y: int)
    requires 1 <= kw <= w && 1 <= kh <= h
    requires small.Length0 == w - kw + 1 && small.Length1 == h - kh + 1
    requires Contents(small) == ValidConv(g, w, h, kg, kw, kh)
    requires 0 <= x < w && 0 <= y < h
    ensures Copied(small, kw / 2, kh / 2, h - kh + 1, 0, x, y) == PaddedConv(g, w, h, kg, kw, kh)[x][y]
  {
    if InValidWindow(x, y, w, h, kw, kh) {
      assert Contents(small)[x - kw / 2][y - kh / 2] == small[x - kw / 2, y - kh / 2];
    }
  }

  /** The padded result while its copy loop runs: the valid sample (a, b) has
      been copied to (a + left, b + top) once the loops have passed row b, or
      are on row b past column a; every other cell still holds zero. */
  ghost function Copied(small: array2<real>, left: int, top: int, j: int, i: int, x: int, y: int): real
    reads small
  {
    var a, b := x - left, y - top;
    if 0 <= a < small.Length0 && 0 <= b < small.Length1 && (b < j || (b == j && a < i)) then small[a, b] else 0.0
  }

  /** Writes the samples of grid into a fresh one-dimensional array in row-major
      order, sample (i, j) at index j * grid.Length0 + i: the flattening loop
      that convolutionDouble and convolutionDoublePadded share. */
  method FlattenRowMajor(grid: array2<real>) returns (result: array<real>)
    ensures fresh(result)
    ensures result.Length == grid.Length0 * grid.Length1
    ensures result[..] == Flatten(Contents(grid), grid.Length0, grid.Length1)
  {
    var w, h := grid.Length0, grid.Length1;
    ghost var g := Contents(grid);
    result := new real[w * h];
    for j := 0 to h
      invariant j * w <= w * h
      invariant result[..j * w] == Flatten(g, w, j)
    {
      RowEnd(j, w, h);
      for i := 0 to w
        invariant result[..j * w] == Flatten(g, w, j)
        invariant result[j * w..j * w + i] == Row(g, j, i)
      {
        result[j * w + i] := grid[i, j];
        assert result[j * w..j * w + i + 1] == result[j * w..j * w + i] + [grid[i, j]];
      }
      assert result[..j * w + w] == result[..j * w] + result[j * w..j * w + w];
    }
    assert result[..] == result[..w * h];
  }

  /** Row j of a w x h grid ends where row j + 1 starts, inside the flattening. */
  lemma RowEnd(j: int, w: int, h: int)
    requires 0 <= j < h && 0 <= w
    ensures j * w + w == (j + 1) * w <= w * h
  {
    MulLeq(j + 1, h, w);
  }

  /** convolutionDouble: the valid convolution flattened row-major into an
      array of (width - kernelWidth + 1) * (height - kernelHeight + 1) values. */
  method ConvolutionDouble(input: array2<real>, width: int, height: int, kernel: array2<real>,
                           kernelWidth: int, kernelHeight: int) returns (result: array<real>)
    requires 1 <= kernelWidth <= width <= input.Length0 && 1 <= kernelHeight <= height <= input.Length1
    requires kernelWidth <= kernel.Length0 && kernelHeight <= kernel.Length1
    ensures fresh(result)
    ensures result.Length == (width - kernelWidth + 1) * (height - kernelHeight + 1)
    ensures result[..] == Flatten(ValidConv(Contents(input), width, height, Contents(kernel), kernelWidth, kernelHeight),
                                  width - kernelWidth + 1, height - kernelHeight + 1)
  {
    var small := Convolution2D(input, width, height, kernel, kernelWidth, kernelHeight);
    result := FlattenRowMajor(small);
  }

  /** convolutionDoublePadded: the padded convolution flattened row-major into
      an array of width * height values. */
  method ConvolutionDoublePadded(input: array2<real>, width: int, height: int, kernel: array2<real>,
                                 kernelWidth: int, kernelHeight: int) returns (result: array<real>)
    requires 1 <= kernelWidth <= width <= input.Length0 && 1 <= kernelHeight <= height <= input.Length1
    requires kernelWidth <= kernel.Length0 && kernelHeight <= kernel.Length1
    ensures fresh(result)
    ensures result.Length == width * height
    ensures result[..] == Flatten(PaddedConv(Contents(input), width, height, Contents(kernel), kernelWidth, kernelHeight),
                                  width, height)
  {
    var result2D := Convolution2DPadded(input, width, height, kernel, kernelWidth, kernelHeight);
    result := FlattenRowMajor(result2D);
  }

  /** Array.clone() of an image: a fresh array with the same samples. */
  method Clone(a: array2<real>) returns (c: array2<real>)
    ensures fresh(c)
    ensures c.Length0 == a.Length0 && c.Length1 == a.Length1 && Contents(c) == Contents(a)
  {
    c := new real[a.Length0, a.Length1];
    for x := 0 to a.Length0
      invariant forall x', y :: 0 <= x' < x && 0 <= y < a.Length1 ==> c[x', y] == a[x', y]
    {
      for y := 0 to a.Length1
        invariant forall x', y' :: 0 <= x' < x && 0 <= y' < a.Length1 ==> c[x', y'] == a[x', y']
        invariant forall y' :: 0 <= y' < y ==> c[x, y'] == a[x, y']
      {
        c[x, y] := a[x, y];
      }
    }
    RectEq(Contents(c), Contents(a), a.Length0, a.Length1);
  }

  /** convolutionType1: iterations valid convolutions in a row, each applied to
      the result of the one before; a count of zero or less gives a copy of the
      input. */
  method ConvolutionType1(input: array2<real>, width: int, height: int, kernel: array2<real>,
                          kernelWidth: int, kernelHeight: int, iterations: int) returns (output: array2<real>)
    requires iterations > 0 ==>
      1 <= kernelWidth <= kernel.Length0 && 1 <= kernelHeight <= kernel.Length1 &&
      width <= input.Length0 && height <= input.Length1 &&
      1 <= width - iterations * (kernelWidth - 1) && 1 <= height - iterations * (kernelHeight - 1)
    ensures fresh(output)
    ensures iterations <= 0 ==>
      output.Length0 == input.Length0 && output.Length1 == input.Length1 && Contents(output) == Contents(input)
    ensures iterations > 0 ==>
      output.Length0 == width - iterations * (kernelWidth - 1) &&
      output.Length1 == height - iterations * (kernelHeight - 1)
    ensures Contents(output) == IterValid(Contents(input), width, height, Contents(kernel), kernelWidth, kernelHeight,
                                          if iterations < 0 then 0 else iterations)
  {
    ghost var g, kg := Contents(input), Contents(kernel);
    var w, h := width, height;
    var newInput := Clone(input);
    output := Clone(input);
    var i := 0;
    while i < iterations
      invariant 0 <= i && (i > 0 ==> i <= iterations)
      invariant i > 0 ==> 1 <= kernelWidth && 1 <= kernelHeight && 1 <= w && 1 <= h
      invariant w == width - i * (kernelWidth - 1) && h == height - i * (kernelHeight - 1)
      invariant fresh(output) && fresh(newInput)
      invariant i > 0 ==> w <= newInput.Length0 && h <= newInput.Length1
      invariant i == 0 ==> newInput.Length0 == input.Length0 && newInput.Length1 == input.Length1
      invariant i == 0 ==> output.Length0 == input.Length0 && output.Length1 == input.Length1
      invariant i > 0 ==> output.Length0 == w && output.Length1 == h
      invariant Contents(newInput) == Contents(output) == IterValid(g, width, height, kg, kernelWidth, kernelHeight, i)
    {
      ShrinkMore(width, kernelWidth, i, iterations);
      ShrinkMore(height, kernelHeight, i, iterations);
      var smallWidth := w - kernelWidth + 1;
      var smallHeight := h - kernelHeight + 1;
      output := Convolution2D(newInput, w, h, kernel, kernelWidth, kernelHeight);
      IterValidLast(g, width, height, kg, kernelWidth, kernelHeight, i + 1);
      w, h := smallWidth, smallHeight;
      newInput := Clone(output);
      i := i + 1;
    }
  }

  /** convolutionType2: iterations padded convolutions in a row, each applied to
      the result of the one before, all of them width x height; a count of zero
      or less gives a copy of the input. */
  method ConvolutionType2(input: array2<real>, width: int, height: int, kernel: array2<real>,
                          kernelWidth: int, kernelHeight: int, iterations: int) returns (output: array2<real>)
    requires iterations > 0 ==>
      1 <= kernelWidth <= width <= input.Length0 && 1 <= kernelHeight <= height <= input.Length1 &&
      kernelWidth <= kernel.Length0 && kernelHeight <= kernel.Length1
    ensures fresh(output)
    ensures iterations <= 0 ==>
      output.Length0 == input.Length0 && output.Length1 == input.Length1 && Contents(output) == Contents(input)
    ensures iterations > 0 ==> output.Length0 == width && output.Length1 == height
    ensures Contents(output) == IterPadded(Contents(input), width, height, Contents(kernel), kernelWidth, kernelHeight,
                                           if iterations < 0 then 0 else iterations)
  {
    ghost var g, kg := Contents(input), Contents(kernel);
    var newInput := Clone(input);
    output := Clone(input);
    var i := 0;
    while i < iterations
      invariant 0 <= i && (i > 0 ==> i <= iterations)
      invariant fresh(output) && fresh(newInput)
      invariant i == 0 ==> newInput.Length0 == input.Length0 && newInput.Length1 == input.Length1
      invariant i == 0 ==> output.Length0 == input.Length0 && output.Length1 == input.Length1
      invariant i > 0 ==> newInput.Length0 == output.Length0 == width && newInput.Length1 == output.Length1 == height
      invariant Contents(newInput) == Contents(output) == IterPadded(g, width, height, kg, kernelWidth, kernelHeight, i)
    {
      output := Convolution2DPadded(newInput, width, height, kernel, kernelWidth, kernelHeight);
      IterPaddedLast(g, width, height, kg, kernelWidth, kernelHeight, i + 1);
      newInput := Clone(output);
      i := i + 1;
    }
  }

  /** After i < n steps the tracked size still has room for the kernel. */
  lemma ShrinkMore(w: int, kw: int, i: int, n: int)
    requires 1 <= kw && 0 <= i < n && 1 <= w - n * (kw - 1)
    ensures kw <= w - i * (kw - 1) && 1 <= w - (i + 1) * (kw - 1)
  {
    assert (i + 1) * (kw - 1) <= n * (kw - 1);
  }

  /** doublesToValidPixels: every grey level clamped to [0, 255], rounded and
      packed as an opaque grey pixel. */
  method DoublesToValidPixels(greys: array<real>) returns (result: array<int>)
    ensures fresh(result)
    ensures result.Length == greys.Length
    ensures forall i :: 0 <= i < greys.Length ==> result[i] == Pack(GreyLevel(greys[i]))
  {
    result := new int[greys.Length];
    for i := 0 to greys.Length
      invariant forall i' :: 0 <= i' < i ==> result[i'] == Pack(GreyLevel(greys[i']))
    {
      var grey := if greys[i] > 255.0 then 255 else if greys[i] < 0.0 then 0 else Round(greys[i]);
      result[i] := Pack(grey);
    }
  }

  /** The first loop of convolution_image: the red channel of the row-major
      pixel buffer as a fresh width x height grey image. */
  method RedChannelImage(input: array<int>, width: int, height: int) returns (input2D: array2<real>)
    requires 0 <= width && 0 <= height && width * height <= input.Length
    ensures fresh(input2D) && input2D.Length0 == width && input2D.Length1 == height
    ensures Contents(input2D) == GreyImage(input[..], width, height)
  {
    input2D := new real[width, height];
    ghost var grey := GreyImage(input[..], width, height);
    for j := 0 to height
      invariant forall x, y :: 0 <= x < width && 0 <= y < j ==> input2D[x, y] == At(grey, x, y)
    {
      for i := 0 to width
        invariant forall x, y :: 0 <= x < width && 0 <= y < j ==> input2D[x, y] == At(grey, x, y)
        invariant forall x :: 0 <= x < i ==> input2D[x, j] == At(grey, x, j)
      {
        FlatIndex(i, j, width, height);
        assert At(grey, i, j) == RedChannel(input[..])[j * width + i];
        input2D[i, j] := Red(input[j * width + i]) as real;
      }
    }
    RectEq(Contents(input2D), grey, width, height);
  }

  /** The last loop of convolution_image: every convolved value v becomes the
      grey pixel of level Round(v * scale + offset), clamped to [0, 255]. */
  method Quantise(output: array<real>, scale: real, offset: real) returns (outputInts: array<int>)
    ensures fresh(outputInts) && outputInts.Length == output.Length
    ensures forall n :: 0 <= n < output.Length ==> outputInts[n] == Pack(Level(output[n], scale, offset))
  {
    outputInts := new int[output.Length];
    for i := 0 to outputInts.Length
      invariant forall n :: 0 <= n < i ==> outputInts[n] == Pack(Level(output[n], scale, offset))
    {
      outputInts[i] := Round(output[i] * scale + offset);
      if outputInts[i] > 255 {
        outputInts[i] := 255;
      }
      if outputInts[i] < 0 {
        outputInts[i] := 0;
      }
      var g := outputInts[i];
      outputInts[i] := Pack(g);
    }
  }

  /** convolution_image: the filtered-pixel pipeline. The red channel of the
      row-major pixel buffer becomes a width x height grey image, which is
      convolved in padded mode and flattened; each value v becomes
      Round(v * scale + offset), is clamped to [0, 255] and packed. */
  method ConvolutionImage(input: array<int>, width: int, height: int, kernel: array2<real>,
                          kernelWidth: int, kernelHeight: int, scale: real, offset: real)
    returns (outputInts: array<int>)
    requires 1 <= kernelWidth <= width && 1 <= kernelHeight <= height && width * height <= input.Length
    requires kernelWidth <= kernel.Length0 && kernelHeight <= kernel.Length1
    ensures fresh(outputInts)
    ensures outputInts.Length == width * height
    ensures outputInts[..] == FilterImage(input[..], width, height, Contents(kernel), kernelWidth, kernelHeight, scale, offset)
  {
    var input2D := RedChannelImage(input, width, height);
    var output := ConvolutionDoublePadded(input2D, width, height, kernel, kernelWidth, kernelHeight);
    outputInts := Quantise(output, scale, offset);
  }
}
