/** The noise fields: `rng`, the fill of a size-by-size grid with draws, and
    `averageOfNeighbors`, the mean of a grid over a square window. */
module Noise {
  import opened Types

  /** `rng(min, max)` for the value `rand()` returned: C's remainder of the draw
      by the width of the range, shifted by `min`. */
  function Rng(lo: int, hi: int, raw: int): (v: int)
    requires hi + 1 - lo != 0
    ensures 0 <= raw && lo <= hi ==> lo <= v <= hi
    ensures 0 <= raw <= hi - lo ==> v == lo + raw
  {
    CRem(raw, hi + 1 - lo) + lo
  }

  /** `g` is an `xs`-by-`ys` grid, indexed `g[x][y]`. */
  predicate IsGrid(g: seq<seq<int>>, xs: int, ys: int)
  {
    |g| == xs && forall i :: 0 <= i < |g| ==> |g[i]| == ys
  }

  /** Every cell of `g` lies in `[lo, hi]`. */
  predicate Within(g: seq<seq<int>>, lo: int, hi: int)
  {
    forall i, j :: 0 <= i < |g| && 0 <= j < |g[i]| ==> lo <= g[i][j] <= hi
  }

  /** Every raw draw is one `rand()` can return. */
  predicate Drawn(raw: seq<seq<int>>)
  {
    forall i, j :: 0 <= i < |raw| && 0 <= j < |raw[i]| ==> 0 <= raw[i][j]
  }

  /** The noise field whose cell `[x][y]` is `rng(0, max)` for the draw `raw[x][y]`. */
  function NoiseField(size: nat, max: int, raw: seq<seq<int>>): (g: seq<seq<int>>)
    requires max != -1 && IsGrid(raw, size, size)
    ensures IsGrid(g, size, size)
  {
    seq(size, x requires 0 <= x < size =>
      seq(size, y requires 0 <= y < size => Rng(0, max, raw[x][y])))
  }

  /** A field drawn from `rand()` is a `size`-by-`size` grid of values in `[0, max]`. */
  lemma NoiseFieldRange(size: nat, max: int, raw: seq<seq<int>>)
    requires max >= 0 && IsGrid(raw, size, size) && Drawn(raw)
    ensures IsGrid(NoiseField(size, max, raw), size, size)
    ensures Within(NoiseField(size, max, raw), 0, max)
  {
  }

  /** The nested loops that fill `randmap` (and `randClouds`) with `rng(0, max)`. */
  method FillNoise(size: nat, max: int8, raw: seq<seq<int>>) returns (g: seq<seq<int>>)
    requires max != -1 && IsGrid(raw, size, size)
    ensures g == NoiseField(size, max, raw)
  {
    g := [];
    var x := 0;
    while x < size
      invariant 0 <= x <= size && |g| == x
      invariant forall i :: 0 <= i < x ==> g[i] == NoiseField(size, max, raw)[i]
    {
      var row := [];
      var y := 0;
      while y < size
        invariant 0 <= y <= size && |row| == y
        invariant forall j :: 0 <= j < y ==> row[j] == Rng(0, max, raw[x][j])
      {
        row := row + [Rng(0, max, raw[x][y])];
        y := y + 1;
      }
      g := g + [row];
      x := x + 1;
    }
  }

  /** The window `[x-r, x+r] x [y-r, y+r]` lies inside an `xs`-by-`ys` grid. */
  predicate InWindow(xs: int, ys: int, x: int, y: int, r: int)
  {
    x - r >= 0 && y - r >= 0 && x + r < xs && y + r < ys
  }

  /** The number of cells of a window of radius `r`. */
  function Cells(r: int): (n: int)
    ensures r >= 0 ==> n >= 2 * r + 1 > 0
  {
    (2 * r + 1) * (2 * r + 1)
  }

  /** The sum of the first `n` cells of window column `xo`:
      `g[x + xo][y - r + k]` for `0 <= k < n`. */
  function ColumnSum(g: seq<seq<int>>, xs: int, ys: int, x: int, y: int, r: int, xo: int, n: nat): int
    requires IsGrid(g, xs, ys) && 0 <= r && InWindow(xs, ys, x, y, r)
    requires -r <= xo <= r && n <= 2 * r + 1
  {
    if n == 0 then 0 else ColumnSum(g, xs, ys, x, y, r, xo, n - 1) + g[x + xo][y - r + n - 1]
  }

  /** The sum of the first `m` whole columns of the window, `xo = -r .. -r + m - 1`. */
  function BlockSum(g: seq<seq<int>>, xs: int, ys: int, x: int, y: int, r: int, m: nat): int
    requires IsGrid(g, xs, ys) && 0 <= r && InWindow(xs, ys, x, y, r)
    requires m <= 2 * r + 1
  {
    if m == 0 then 0
    else BlockSum(g, xs, ys, x, y, r, m - 1) + ColumnSum(g, xs, ys, x, y, r, m - 1 - r, 2 * r + 1)
  }

  /** The sum of the grid over the whole window. */
  function WindowSum(g: seq<seq<int>>, xs: int, ys: int, x: int, y: int, r: int): int
    requires IsGrid(g, xs, ys) && 0 <= r && InWindow(xs, ys, x, y, r)
  {
    BlockSum(g, xs, ys, x, y, r, 2 * r + 1)
  }

  /** `averageOfNeighbors`: accumulates `sum` and `members` over the window when it
      lies inside the grid. The source returns `sum / members` as a double, which
      its callers only floor (see `FloorOf`); a window outside the grid, or a
      negative radius, leaves both at 0. */
  method AverageOfNeighbors(g: seq<seq<int>>, xs: int, ys: int, x: int, y: int, r: int)
    returns (sum: int, members: int)
    requires IsGrid(g, xs, ys)
    ensures InWindow(xs, ys, x, y, r) && r >= 0 ==>
      sum == WindowSum(g, xs, ys, x, y, r) && members == Cells(r)
    ensures !(InWindow(xs, ys, x, y, r) && r >= 0) ==> sum == 0 && members == 0
  {
    sum, members := 0, 0;
    if x - r >= 0 && y - r >= 0 && x + r < xs && y + r < ys {
      var xo := -r;
      while xo <= r
        invariant -r <= xo && (r >= 0 ==> xo <= r + 1)
        invariant r >= 0 ==> sum == BlockSum(g, xs, ys, x, y, r, xo + r)
        invariant r >= 0 ==> members == (xo + r) * (2 * r + 1)
        invariant r < 0 ==> sum == 0 && members == 0
      {
        var yo := -r;
        while yo <= r
          invariant -r <= yo <= r + 1
          invariant sum == BlockSum(g, xs, ys, x, y, r, xo + r) + ColumnSum(g, xs, ys, x, y, r, xo, yo + r)
          invariant members == (xo + r) * (2 * r + 1) + (yo + r)
        {
          sum := sum + g[x + xo][y + yo];
          members := members + 1;
          yo := yo + 1;
        }
        xo := xo + 1;
      }
    }
  }

  /** What `floor(sum / members)` yields: NaN for an empty window, otherwise the
      integer floor of the mean. */
  datatype Floored = NaN | Whole(value: int)

  function FloorOf(sum: int, members: int): (f: Floored)
    requires members >= 0
    ensures f == NaN <==> members == 0
    ensures f.Whole? ==> f.value * members <= sum < (f.value + 1) * members
  {
    if members == 0 then NaN else Whole(sum / members)
  }

  /** Bounds on each cell bound a partial column sum. */
  lemma {:induction false} ColumnSumBounds(g: seq<seq<int>>, xs: int, ys: int, x: int, y: int, r: int, xo: int, n: nat, lo: int, hi: int)
    requires IsGrid(g, xs, ys) && 0 <= r && InWindow(xs, ys, x, y, r)
    requires -r <= xo <= r && n <= 2 * r + 1 && Within(g, lo, hi)
    ensures n * lo <= ColumnSum(g, xs, ys, x, y, r, xo, n) <= n * hi
  {
    if n > 0 {
      ColumnSumBounds(g, xs, ys, x, y, r, xo, n - 1, lo, hi);
      assert lo <= g[x + xo][y - r + n - 1] <= hi;
    }
  }

  /** Bounds on each cell bound a sum of whole columns. */
  lemma {:induction false} BlockSumBounds(g: seq<seq<int>>, xs: int, ys: int, x: int, y: int, r: int, m: nat, lo: int, hi: int)
    requires IsGrid(g, xs, ys) && 0 <= r && InWindow(xs, ys, x, y, r)
    requires m <= 2 * r + 1 && Within(g, lo, hi)
    ensures m * (2 * r + 1) * lo <= BlockSum(g, xs, ys, x, y, r, m) <= m * (2 * r + 1) * hi
  {
    if m > 0 {
      BlockSumBounds(g, xs, ys, x, y, r, m - 1, lo, hi);
      ColumnSumBounds(g, xs, ys, x, y, r, m - 1 - r, 2 * r + 1, lo, hi);
      PeelColumn(m, 2 * r + 1, lo);
      PeelColumn(m, 2 * r + 1, hi);
    }
  }

  lemma PeelColumn(m: int, n: int, v: int)
    ensures m * n * v == (m - 1) * n * v + n * v
  {
  }

  /** For noise in `[lo, hi]`, an in-bounds window sums exactly `Cells(r)` values and
      the floor of their mean lies in `[lo, hi]`. */
  lemma WindowMeanBounds(g: seq<seq<int>>, xs: int, ys: int, x: int, y: int, r: int, lo: int, hi: int)
    requires IsGrid(g, xs, ys) && 0 <= r && InWindow(xs, ys, x, y, r) && Within(g, lo, hi)
    ensures Cells(r) * lo <= WindowSum(g, xs, ys, x, y, r) <= Cells(r) * hi
    ensures lo <= WindowSum(g, xs, ys, x, y, r) / Cells(r) <= hi
  {
    BlockSumBounds(g, xs, ys, x, y, r, 2 * r + 1, lo, hi);
    MeanBetween(WindowSum(g, xs, ys, x, y, r), Cells(r), lo, hi);
  }

  /** A sum of `n` values in `[lo, hi]` has its floored mean in `[lo, hi]`. */
  lemma MeanBetween(s: int, n: int, lo: int, hi: int)
    requires n > 0 && n * lo <= s <= n * hi
    ensures lo <= s / n <= hi
  {
    var q := s / n;
    assert q * n <= s < (q + 1) * n;
    if q < lo {
      MulMonotone(q + 1, lo, n);
    }
    if q > hi {
      MulMonotone(hi + 1, q, n);
    }
  }
}
