/** Rectangular grids of samples as values. A grid is indexed g[x][y] like the
    engine's arrays: the outer index runs over the width, the inner one over the
    height. This module also holds the row-major index map (i, j) |-> j * w + i
    that the engine uses to flatten a grid into a one-dimensional array. */
module Grids {

  type Grid<T> = seq<seq<T>>

  /** g is exactly w columns of h samples each. */
  ghost predicate IsRect<T>(g: Grid<T>, w: int, h: int) {
    |g| == w && 0 <= h && forall x :: 0 <= x < w ==> |g[x]| == h
  }

  /** The samples of a two-dimensional array, as a grid value. */
  ghost function Contents<T>(a: array2<T>): (g: Grid<T>)
    reads a
  {
    seq(a.Length0, x requires 0 <= x < a.Length0 reads a =>
      seq(a.Length1, y requires 0 <= y < a.Length1 reads a => a[x, y]))
  }

  /** The samples of a two-dimensional integer array, read as reals. */
  ghost function RealContents(a: array2<int>): Grid<real>
    reads a
  {
    seq(a.Length0, x requires 0 <= x < a.Length0 reads a =>
      seq(a.Length1, y requires 0 <= y < a.Length1 reads a => a[x, y] as real))
  }

  /** Sample (x, y) of g, and zero where g has no such sample. The methods only
      ever read samples that exist; the zero keeps the definitions below free of
      preconditions about the shape of their grids. */
  ghost function At(g: Grid<real>, x: int, y: int): real {
    if 0 <= x < |g| && 0 <= y < |g[x]| then g[x][y] else 0.0
  }

  /** Two w x h grids that agree on every cell are equal. */
  lemma RectEq<T>(a: Grid<T>, b: Grid<T>, w: int, h: int)
    requires IsRect(a, w, h) && IsRect(b, w, h)
    requires forall x, y :: 0 <= x < w && 0 <= y < h ==> a[x][y] == b[x][y]
    ensures a == b
  {
    forall x | 0 <= x < w
      ensures a[x] == b[x]
    {
      assert |a[x]| == h == |b[x]|;
    }
  }

  /** Euclidean division is determined by n == q * d + r with 0 <= r < d. */
  lemma DivModUnique(n: int, d: int, q: int, r: int)
    requires 0 < d && n == q * d + r && 0 <= r < d
    ensures n / d == q && n % d == r
  {
    var q', r' := n / d, n % d;
    assert n == q' * d + r' && 0 <= r' < d;
    if q' < q {
      MulLeq(q' + 1, q, d);
      assert false;
    } else if q < q' {
      MulLeq(q + 1, q', d);
      assert false;
    }
  }

  /** Multiplying by a non-negative w preserves a <= b. */
  lemma {:induction false} MulLeq(a: int, b: int, w: int)
    requires a <= b && 0 <= w
    ensures a * w <= b * w
    decreases b - a
  {
    if a < b {
      MulLeq(a, b - 1, w);
      assert b * w == (b - 1) * w + w;
    }
  }

  /** The row-major index j * w + i of cell (i, j) of a w x h grid lies in
      [0, w * h), and the cell is recovered from it as (index % w, index / w);
      in particular two different cells never share an index. */
  lemma FlatIndex(i: int, j: int, w: int, h: int)
    requires 0 <= i < w && 0 <= j < h
    ensures 0 <= j * w + i < w * h
    ensures (j * w + i) % w == i && (j * w + i) / w == j
  {
    DivModUnique(j * w + i, w, j, i);
    MulLeq(0, j, w);
    MulLeq(j + 1, h, w);
    assert (j + 1) * w == j * w + w;
    assert h * w == w * h;
  }

  /** Every index k in [0, w * h) is the row-major index of the cell
      (k % w, k / w) of the w x h grid, so the index map is onto. */
  lemma FlatIndexSplit(k: int, w: int, h: int)
    requires 0 <= w && 0 <= h && 0 <= k < w * h
    ensures 0 < w && 0 <= k % w < w && 0 <= k / w < h && (k / w) * w + k % w == k
  {
    if w == 0 {
      assert false;
    }
  }

  /** The first n samples of row j of g: (0, j), (1, j), ..., (n - 1, j). */
  ghost function Row(g: Grid<real>, j: int, n: nat): seq<real> {
    seq(n, x => At(g, x, j))
  }

  /** The row-major flattening of the first w x h samples of g: rows 0 to
      h - 1 one after the other, each w samples long. */
  ghost function Flatten(g: Grid<real>, w: int, h: int): (s: seq<real>)
    requires 0 <= w && 0 <= h
    ensures |s| == w * h
    decreases h
  {
    if h == 0 then []
    else
      assert w * h == w * (h - 1) + w;
      Flatten(g, w, h - 1) + Row(g, h - 1, w)
  }

  /** The inverse of Flatten: column i, row j of the result is element j * w + i. */
  ghost function Unflatten<T>(s: seq<T>, w: int, h: int): (g: Grid<T>)
    requires 0 <= w && 0 <= h && w * h <= |s|
    ensures IsRect(g, w, h)
  {
    seq(w, i requires 0 <= i < w =>
      seq(h, j requires 0 <= j < h => FlatIndex(i, j, w, h); s[j * w + i]))
  }

  /** Sample (i, j) of a grid lands at index j * w + i of its flattening. */
  lemma {:induction false} FlattenAt(g: Grid<real>, w: int, h: int, i: int, j: int)
    requires 0 <= i < w && 0 <= j < h
    ensures 0 <= j * w + i < |Flatten(g, w, h)| && Flatten(g, w, h)[j * w + i] == At(g, i, j)
    decreases h
  {
    FlatIndex(i, j, w, h);
    assert |Flatten(g, w, h - 1)| == w * (h - 1);
    if j < h - 1 {
      FlattenAt(g, w, h - 1, i, j);
    } else {
      assert j * w == w * (h - 1);
    }
  }

  /** Unflattening a flattened rectangular grid gives the grid back. */
  lemma UnflattenFlatten(g: Grid<real>, w: int, h: int)
    requires IsRect(g, w, h)
    ensures Unflatten(Flatten(g, w, h), w, h) == g
  {
    var s := Flatten(g, w, h);
    forall i, j | 0 <= i < w && 0 <= j < h
      ensures Unflatten(s, w, h)[i][j] == g[i][j]
    {
      FlattenAt(g, w, h, i, j);
    }
    RectEq(Unflatten(s, w, h), g, w, h);
  }

  /** Flattening an unflattened sequence gives back its first w * h elements. */
  lemma FlattenUnflatten(s: seq<real>, w: int, h: int)
    requires 0 <= w && 0 <= h && w * h <= |s|
    ensures Flatten(Unflatten(s, w, h), w, h) == s[..w * h]
  {
    var g := Unflatten(s, w, h);
    forall k | 0 <= k < w * h
      ensures Flatten(g, w, h)[k] == s[k]
    {
      FlatIndexSplit(k, w, h);
      FlattenAt(g, w, h, k % w, k / w);
      FlatIndex(k % w, k / w, w, h);
    }
  }
}
