/** `overlayClouds`: a second noise field, and one pass over the pixel data of a
    bitmap already on disk. The pass clears the clouds an earlier pass drew and
    draws new ones where the cloud noise is dense. The file is an array of bytes,
    and the file position is a cursor into it. The pass reads pixels in file
    order, so pixel `k` is column `x = k % size` of scanline `y = k / size`, and
    its cloud test is taken at `(x, y)` of the cloud field. */
module Clouds {
  import opened Types
  import opened Noise
  import opened Bitmap
  import opened Terrain

  /** The test for a pixel over the planet: ocean blue, or a green that is neither
      0 nor 255. */
  predicate OverPlanet(px: Pixel)
  {
    px.b == 128 || !Flat(px.g)
  }

  /** The colour written back when a pixel with red 220 is cleared: land for a
      cloud drawn over land, ocean for one drawn over the ocean, and otherwise
      whatever the colour buffer `colors` still holds from the previous write. */
  function Uncloud(px: Pixel, colors: Pixel): Pixel
  {
    if px.b == 220 then Pixel(0, ToByte(px.g - 75), 0)
    else if px.g == 220 then Ocean
    else colors
  }

  /** The cloud drawn over `px`: over green, a cloud tinted by that green; over
      no green, a plain one. Every cloud has red 220, the mark by which a later
      pass finds it. */
  function Cloud(px: Pixel): (c: Pixel)
    ensures c.r == 220
  {
    if px.g != 0 then Pixel(220, ToByte(px.g + 75), 220) else Pixel(235, 220, 220)
  }

  /** The new pixel and the new contents of the colour buffer. */
  datatype Brushed = Brushed(px: Pixel, colors: Pixel)

  /** The loop body on an over-planet pixel `px`: clear it when its red is 220,
      then draw a cloud over what is there when the cell is cloudy. A cloudy pixel
      always ends up a cloud, and that cloud is left in the colour buffer. A pixel
      with nothing to clear and no cloud to draw keeps its colour and the buffer. */
  function Brush(px: Pixel, colors: Pixel, cloudy: bool): (r: Brushed)
    ensures cloudy ==> r.px == r.colors && r.px.r == 220
    ensures !cloudy && px.r != 220 ==> r == Brushed(px, colors)
    ensures px.r != 220 ==> r.px == if cloudy then Cloud(px) else px
  {
    var under := if px.r == 220 then Uncloud(px, colors) else px;
    var buffer := if px.r == 220 then under else colors;
    if cloudy then Brushed(Cloud(under), Cloud(under)) else Brushed(under, buffer)
  }

  /** What `floor(averageOfNeighbors(g, size, size, x, y, r))` yields: the floored
      mean over the window, or NaN when the window leaves the grid or the radius
      is negative. */
  function WindowFloor(g: seq<seq<int>>, size: nat, x: int, y: int, r: int): (f: Floored)
    requires IsGrid(g, size, size)
    ensures f.Whole? <==> InWindow(size, size, x, y, r) && r >= 0
  {
    if InWindow(size, size, x, y, r) && r >= 0 then FloorOf(WindowSum(g, size, size, x, y, r), Cells(r))
    else NaN
  }

  /** The cloud test. A NaN compares false, so a cell whose window leaves the grid
      never gets a cloud. */
  predicate Cloudy(g: seq<seq<int>>, size: nat, level: int, grad: int, x: int, y: int)
    requires IsGrid(g, size, size)
  {
    var f := WindowFloor(g, size, x, y, grad);
    f.Whole? && f.value > level
  }

  /** The cloud test of every step of the pass, in file order: step `k` tests
      cell `(k % size, k / size)`. */
  function CloudMask(noise: seq<seq<int>>, size: nat, level: int, grad: int): (m: seq<bool>)
    requires IsGrid(noise, size, size)
    ensures |m| == size * size
  {
    seq(size * size, k requires 0 <= k < size * size => Cloudy(noise, size, level, grad, k % size, k / size))
  }

  /** Step `y * size + x` of the pass tests cell `(x, y)`. */
  lemma CloudMaskAt(noise: seq<seq<int>>, size: nat, level: int, grad: int, y: int, x: int)
    requires IsGrid(noise, size, size) && 0 <= y < size && 0 <= x < size
    ensures 0 <= y * size + x < size * size
    ensures CloudMask(noise, size, level, grad)[y * size + x] == Cloudy(noise, size, level, grad, x, y)
  {
    MulMonotone(y + 1, size, size);
    MulSucc(y, size);
    DivModOf(size, y * size + x, y, x);
  }

  /** Only a cell whose whole window lies in the cloud field can be cloudy; none is
      when the level is at least the noise maximum, and every such cell is when the
      level is negative. */
  lemma CloudyBounds(raw: seq<seq<int>>, size: nat, cloudMax: int, level: int, grad: int, x: int, y: int)
    requires 0 <= cloudMax && IsGrid(raw, size, size) && Drawn(raw)
    ensures var cloudy := Cloudy(NoiseField(size, cloudMax, raw), size, level, grad, x, y);
      (cloudy ==> InWindow(size, size, x, y, grad) && grad >= 0) &&
      (level >= cloudMax ==> !cloudy) &&
      (level < 0 && InWindow(size, size, x, y, grad) && grad >= 0 ==> cloudy)
  {
    if InWindow(size, size, x, y, grad) && grad >= 0 {
      NoiseFieldRange(size, cloudMax, raw);
      WindowMeanBounds(NoiseField(size, cloudMax, raw), size, size, x, y, grad, 0, cloudMax);
    }
  }

  // ---------------------------------------------------------------- the file

  /** The file contents, and the colour buffer `colors` (the `colors` array of the
      program), which keeps its value from one pixel to the next. */
  datatype Canvas = Canvas(bytes: seq<byte>, colors: Pixel)

  /** One iteration of the pixel loop, on the pixel at offset `o`. */
  function PaintAt(c: Canvas, o: int, cloudy: bool): (r: Canvas)
    requires 0 <= o && o + 3 <= |c.bytes|
    ensures |r.bytes| == |c.bytes|
    ensures forall j :: 0 <= j < |c.bytes| && (j < o || o + 3 <= j) ==> r.bytes[j] == c.bytes[j]
  {
    var px := ReadPixel(c.bytes, o);
    if OverPlanet(px) then
      var b := Brush(px, c.colors, cloudy);
      Canvas(Store(c.bytes, o, b.px), b.colors)
    else c
  }

  /** The file and the colour buffer after the first `n` iterations of the pixel loop. */
  function Overlaid(c: Canvas, size: nat, mask: seq<bool>, n: nat): (r: Canvas)
    requires |mask| == size * size && n <= |mask|
    requires HeaderSize + size * Stride(size) <= |c.bytes|
    ensures |r.bytes| == |c.bytes|
  {
    if n == 0 then c
    else
      var k := n - 1;
      OffsetInImage(size, k);
      PaintAt(Overlaid(c, size, mask, k), PixelOffset(size, k),
        mask[k])
  }

  // ---------------------------------------------------------------- offsets

  /** Every pixel of a `size`-by-`size` image lies inside its pixel data. */
  lemma OffsetInImage(size: nat, k: int)
    requires 0 <= k < size * size
    ensures size > 0 && PixelOffset(size, k) + 3 <= HeaderSize + size * Stride(size)
  {
    var y := k / size;
    CellOf(size, k);
    MulSucc(y, Stride(size));
    MulMonotone(y + 1, size, Stride(size));
  }

  /** Column `x` of scanline `y` starts `y` strides and `x` triples past the headers. */
  lemma OffsetOf(size: nat, y: int, x: int)
    requires 0 <= x < size && 0 <= y
    ensures PixelOffset(size, y * size + x) == HeaderSize + y * Stride(size) + 3 * x
  {
    DivModOf(size, y * size + x, y, x);
  }

  /** Triples of distinct pixels do not overlap. */
  lemma OffsetsApart(size: nat, k: int, k': int)
    requires size > 0 && 0 <= k < k'
    ensures PixelOffset(size, k) + 3 <= PixelOffset(size, k')
  {
    var y, y' := k / size, k' / size;
    if y' < y {
      MulMonotone(y' + 1, y, size);
      MulSucc(y', size);
    } else if y < y' {
      MulMonotone(y + 1, y', Stride(size));
      MulSucc(y, Stride(size));
    }
  }

  /** Padding byte `d` after scanline `y` is outside every pixel's triple. */
  lemma PaddingApart(size: nat, k: int, y: int, d: int)
    requires size > 0 && 0 <= k && 0 <= y && 0 <= d < size % 4
    ensures var j := HeaderSize + y * Stride(size) + 3 * size + d;
      j < PixelOffset(size, k) || PixelOffset(size, k) + 3 <= j
  {
    var yk := k / size;
    if yk <= y {
      MulMonotone(yk, y, Stride(size));
    } else {
      MulMonotone(y + 1, yk, Stride(size));
      MulSucc(y, Stride(size));
    }
  }

  // ---------------------------------------------------------------- what the pass does

  /** A pixel the loop has not reached yet still holds its original value. */
  lemma {:induction false} OverlaidLater(c: Canvas, size: nat, mask: seq<bool>, n: nat, o: int)
    requires |mask| == size * size && HeaderSize + size * Stride(size) <= |c.bytes|
    requires n <= size * size && 0 <= o && o + 3 <= |c.bytes|
    requires forall i :: 0 <= i < n ==> size > 0 && PixelOffset(size, i) + 3 <= o
    ensures ReadPixel(Overlaid(c, size, mask, n).bytes, o) == ReadPixel(c.bytes, o)
  {
    if n > 0 {
      OverlaidLater(c, size, mask, n - 1, o);
      StepElsewhere(c, size, mask, n - 1, o);
    }
  }

  /** A pixel the loop has passed is not touched again. */
  lemma {:induction false} OverlaidEarlier(c: Canvas, size: nat, mask: seq<bool>, n: nat, k: nat, o: int)
    requires |mask| == size * size && HeaderSize + size * Stride(size) <= |c.bytes|
    requires k < n <= size * size && 0 <= o && o + 3 <= |c.bytes|
    requires forall i :: k < i < n ==> size > 0 && o + 3 <= PixelOffset(size, i)
    ensures ReadPixel(Overlaid(c, size, mask, n).bytes, o) == ReadPixel(Overlaid(c, size, mask, k + 1).bytes, o)
  {
    if n > k + 1 {
      OverlaidEarlier(c, size, mask, n - 1, k, o);
      StepElsewhere(c, size, mask, n - 1, o);
    }
  }

  /** Step `i` of the pass leaves a pixel whose triple does not overlap its own. */
  lemma StepElsewhere(c: Canvas, size: nat, mask: seq<bool>, i: int, o: int)
    requires |mask| == size * size && HeaderSize + size * Stride(size) <= |c.bytes|
    requires 0 <= i < size * size && 0 <= o && o + 3 <= |c.bytes|
    requires size > 0 && (o + 3 <= PixelOffset(size, i) || PixelOffset(size, i) + 3 <= o)
    ensures ReadPixel(Overlaid(c, size, mask, i + 1).bytes, o) ==
      ReadPixel(Overlaid(c, size, mask, i).bytes, o)
  {
    OffsetInImage(size, i);
    var prev := Overlaid(c, size, mask, i);
    var next := PaintAt(prev, PixelOffset(size, i), mask[i]);
    assert Overlaid(c, size, mask, i + 1) == next;
    assert next.bytes[o] == prev.bytes[o] && next.bytes[o + 1] == prev.bytes[o + 1] && next.bytes[o + 2] == prev.bytes[o + 2];
  }

  /** The whole pass, pixel by pixel: a pixel that is not over the planet keeps its
      colour; one over the planet is brushed once, from its original colour and the
      colour buffer the earlier pixels left. A pixel without a cloud to clear (red
      other than 220, as on a freshly generated map) becomes a cloud exactly when it
      is over the planet and cloudy, whatever the buffer holds. */
  lemma OverlayPixel(c: Canvas, size: nat, mask: seq<bool>, k: int)
    requires |mask| == size * size && HeaderSize + size * Stride(size) <= |c.bytes|
    requires 0 <= k < size * size
    ensures size > 0 && PixelOffset(size, k) + 3 <= |c.bytes|
    ensures var before := ReadPixel(c.bytes, PixelOffset(size, k));
      var after := ReadPixel(Overlaid(c, size, mask, size * size).bytes, PixelOffset(size, k));
      var cloudy := mask[k];
      (!OverPlanet(before) ==> after == before) &&
      (OverPlanet(before) ==> after == Brush(before, Overlaid(c, size, mask, k).colors, cloudy).px) &&
      (before.r != 220 ==> after == if OverPlanet(before) && cloudy then Cloud(before) else before)
  {
    OffsetInImage(size, k);
    var o := PixelOffset(size, k);
    forall i | 0 <= i < k
      ensures PixelOffset(size, i) + 3 <= o
    {
      OffsetsApart(size, i, k);
    }
    forall i | k < i < size * size
      ensures o + 3 <= PixelOffset(size, i)
    {
      OffsetsApart(size, k, i);
    }
    OverlaidEarlier(c, size, mask, size * size, k, o);
    OverlaidLater(c, size, mask, k, o);
  }

  /** Bytes outside every pixel's triple, such as the headers and the scanline
      padding, are never written. */
  lemma {:induction false} OverlaidKeeps(c: Canvas, size: nat, mask: seq<bool>, n: nat, j: int)
    requires |mask| == size * size && HeaderSize + size * Stride(size) <= |c.bytes|
    requires n <= size * size && 0 <= j < |c.bytes|
    requires forall k :: 0 <= k < n ==> j < PixelOffset(size, k) || PixelOffset(size, k) + 3 <= j
    ensures Overlaid(c, size, mask, n).bytes[j] == c.bytes[j]
  {
    if n > 0 {
      OverlaidKeeps(c, size, mask, n - 1, j);
    }
  }

  /** The headers are left as they were. */
  lemma OverlayKeepsHeader(c: Canvas, size: nat, mask: seq<bool>, j: int)
    requires |mask| == size * size && HeaderSize + size * Stride(size) <= |c.bytes|
    requires 0 <= j < HeaderSize
    ensures Overlaid(c, size, mask, size * size).bytes[j] == c.bytes[j]
  {
    OverlaidKeeps(c, size, mask, size * size, j);
  }

  /** The padding bytes after every scanline are left as they were. */
  lemma OverlayKeepsPadding(c: Canvas, size: nat, mask: seq<bool>, y: int, d: int)
    requires |mask| == size * size && HeaderSize + size * Stride(size) <= |c.bytes|
    requires 0 <= y < size && 0 <= d < size % 4
    ensures var j := HeaderSize + y * Stride(size) + 3 * size + d;
      0 <= j < |c.bytes| && Overlaid(c, size, mask, size * size).bytes[j] == c.bytes[j]
  {
    var j := HeaderSize + y * Stride(size) + 3 * size + d;
    PaddingInData(size, y, d);
    PaddingClear(size, y, d);
    OverlaidKeeps(c, size, mask, size * size, j);
  }

  /** Padding byte `d` after scanline `y` is outside the triples of all pixels. */
  lemma PaddingClear(size: nat, y: int, d: int)
    requires 0 <= y < size && 0 <= d < size % 4
    ensures var j := HeaderSize + y * Stride(size) + 3 * size + d;
      forall k :: 0 <= k < size * size ==> j < PixelOffset(size, k) || PixelOffset(size, k) + 3 <= j
  {
    forall k | 0 <= k < size * size
      ensures var j := HeaderSize + y * Stride(size) + 3 * size + d;
        j < PixelOffset(size, k) || PixelOffset(size, k) + 3 <= j
    {
      PaddingApart(size, k, y, d);
    }
  }

  lemma PaddingInData(size: nat, y: int, d: int)
    requires 0 <= y < size && 0 <= d < size % 4
    ensures 0 <= HeaderSize + y * Stride(size) + 3 * size + d < HeaderSize + size * Stride(size)
  {
    MulSucc(y, Stride(size));
    MulMonotone(y + 1, size, Stride(size));
  }

  /** On the bitmap of a map whose pixels are all in the palette (what `generateMap`
      writes from a zeroed buffer, `Terrain.MapPixel`), pixel `k` ends up a cloud
      exactly when it is over the planet and its cell is cloudy, and otherwise keeps
      its map colour. */
  lemma OverlayFreshMap(pixels: seq<Pixel>, size: nat, mask: seq<bool>, colors: Pixel, k: int)
    requires |pixels| == size * size && |mask| == size * size
    requires forall i :: 0 <= i < |pixels| ==> Palette(pixels[i])
    requires 0 <= k < size * size
    ensures size > 0 && PixelOffset(size, k) + 3 <= |Encode(size, size, 0, pixels)|
    ensures var c := Canvas(Encode(size, size, 0, pixels), colors);
      ReadPixel(Overlaid(c, size, mask, size * size).bytes, PixelOffset(size, k)) ==
      if OverPlanet(pixels[k]) && mask[k] then Cloud(pixels[k]) else pixels[k]
  {
    EncodePixel(size, size, 0, pixels, k);
    OverlayPixel(Canvas(Encode(size, size, 0, pixels), colors), size, mask, k);
  }

  // ---------------------------------------------------------------- clearing and redrawing

  /** Clearing undoes drawing: a cloud drawn over a map colour on the planet is
      itself over the planet, and a later pass without a cloud there restores the
      map colour. Land greens 180 and 181 are the exceptions (see `StuckCloud`). */
  lemma CloudCleared(px: Pixel, colors: Pixel)
    requires Palette(px) && OverPlanet(px) && px.g != 180 && px.g != 181
    ensures OverPlanet(Cloud(px))
    ensures Brush(Cloud(px), colors, false).px == px
  {
    Tint(px.g);
  }

  /** The green of a cloud over green `g`, and the green clearing it restores. */
  lemma Tint(g: byte)
    ensures ToByte(ToByte(g + 75) - 75) == g
    ensures Flat(ToByte(g + 75)) <==> g == 180 || g == 181
  {
    if g + 75 < 256 {
      assert ToByte(g + 75) == g + 75;
    } else {
      assert ToByte(g + 75) == g + 75 - 256;
    }
  }

  /** Redrawing is stable: a later pass that finds the same cell cloudy draws the
      same cloud again. */
  lemma CloudRedrawn(px: Pixel, colors: Pixel)
    requires Palette(px) && OverPlanet(px) && px.g != 180 && px.g != 181
    ensures Brush(Cloud(px), colors, true).px == Cloud(px)
  {
    CloudCleared(px, colors);
  }

  /** Land of green 180 gets the cloud `(220, 255, 220)`. That cloud fails the
      over-planet test, so no later pass ever clears it. Green 180 is the land
      colour for elevation 9 with noise maximum 16. */
  lemma StuckCloud()
    ensures LandGreen(9, 16) == 180
    ensures Cloud(Pixel(0, 180, 0)) == Pixel(220, 255, 220)
    ensures !OverPlanet(Pixel(220, 255, 220))
  {
  }

  // ---------------------------------------------------------------- the method

  /** The body of the pixel loop at the cursor `pos`, for cell `(x, y)` of the
      cloud field; returns the new contents of the colour buffer. */
  method PaintPixel(f: array<byte>, pos: int, colors: Pixel, noise: seq<seq<int>>, size: nat,
                    level: int, grad: int, x: int, y: int) returns (buffer: Pixel)
    requires IsGrid(noise, size, size) && 0 <= pos && pos + 3 <= f.Length
    modifies f
    ensures Canvas(f[..], buffer) == PaintAt(Canvas(old(f[..]), colors), pos, Cloudy(noise, size, level, grad, x, y))
  {
    buffer := colors;
    var px := Pixel(f[pos], f[pos + 1], f[pos + 2]);
    if px.b == 128 || (px.g != 0 && px.g != 255) {
      var cleared := false;
      if px.r == 220 {
        if px.b == 220 {
          buffer := Pixel(0, ToByte(px.g - 75), 0);
        } else if px.g == 220 {
          buffer := Pixel(128, 0, 0);
        }
        WriteTriple(f, pos, buffer);
        cleared := true;
      }
      var sum, members := AverageOfNeighbors(noise, size, size, x, y, grad);
      var avg := FloorOf(sum, members);
      if avg.Whole? && avg.value > level {
        if cleared {
          px := Pixel(f[pos], f[pos + 1], f[pos + 2]);
        }
        if px.g != 0 {
          buffer := Pixel(220, ToByte(px.g + 75), 220);
        } else {
          buffer := Pixel(235, 220, 220);
        }
        WriteTriple(f, pos, buffer);
      }
    }
  }

  /** `overlayClouds` on the file contents `f`, with `raw[x][y]` the draw for the
      cloud noise at `(x, y)` and `colors0` the initial contents of the colour
      buffer, which the program leaves uninitialised. */
  method OverlayClouds(f: array<byte>, size: nat, cloudMax: int8, level: int8, grad: int8,
                       raw: seq<seq<int>>, colors0: Pixel)
    requires cloudMax != -1 && IsGrid(raw, size, size)
    requires HeaderSize + size * Stride(size) <= f.Length
    modifies f
    ensures f[..] == Overlaid(Canvas(old(f[..]), colors0), size,
      CloudMask(NoiseField(size, cloudMax, raw), size, level, grad), size * size).bytes
  {
    var noise := FillNoise(size, cloudMax, raw);
    ghost var start := Canvas(f[..], colors0);
    var colors := colors0;
    var pos := HeaderSize;
    var y := 0;
    while y < size
      invariant 0 <= y <= size && pos == HeaderSize + y * Stride(size) && |start.bytes| == f.Length
      invariant Canvas(f[..], colors) == Painted(start, noise, size, level, grad, y, 0)
    {
      colors, pos := PaintRow(f, pos, colors, noise, size, level, grad, y, start);
      MulSucc(y, Stride(size));
      pos := pos + size % 4;
      y := y + 1;
    }
    assert y == size;
    PaintedIsOverlaid(start, noise, size, level, grad, size, 0, size * size);
  }

  /** The pixels of one scanline, with the cursor `pos` at its first pixel;
      returns the colour buffer and the cursor at the scanline's padding. */
  method PaintRow(f: array<byte>, pos: int, colors: Pixel, noise: seq<seq<int>>, size: nat,
                  level: int, grad: int, y: int, ghost start: Canvas)
    returns (colors': Pixel, pos': int)
    requires IsGrid(noise, size, size) && 0 <= y < size && pos == HeaderSize + y * Stride(size)
    requires HeaderSize + size * Stride(size) <= |start.bytes| == f.Length
    requires Canvas(f[..], colors) == Painted(start, noise, size, level, grad, y, 0)
    modifies f
    ensures pos' == pos + 3 * size
    ensures Canvas(f[..], colors') == Painted(start, noise, size, level, grad, y, size)
  {
    colors', pos' := colors, pos;
    var x := 0;
    while x < size
      invariant 0 <= x <= size && pos' == pos + 3 * x
      invariant Canvas(f[..], colors') == Painted(start, noise, size, level, grad, y, x)
    {
      PaintedNext(start, noise, size, level, grad, y, x, pos');
      colors' := PaintPixel(f, pos', colors', noise, size, level, grad, x, y);
      pos' := pos' + 3;
      x := x + 1;
    }
    assert x == size;
  }

  /** The file and the colour buffer once the pixel loop has done `y` whole
      scanlines and the first `x` pixels of the next: the nested-loop form of `Overlaid`. */
  ghost function Painted(c: Canvas, noise: seq<seq<int>>, size: nat, level: int, grad: int, y: nat, x: nat): (r: Canvas)
    requires IsGrid(noise, size, size) && HeaderSize + size * Stride(size) <= |c.bytes|
    requires x <= size && (y < size || (y == size && x == 0))
    ensures |r.bytes| == |c.bytes|
    decreases y, x
  {
    if x == 0 then
      if y == 0 then c else Painted(c, noise, size, level, grad, y - 1, size)
    else
      RowInImage(size, y, x - 1);
      PaintAt(Painted(c, noise, size, level, grad, y, x - 1), HeaderSize + y * Stride(size) + 3 * (x - 1),
        Cloudy(noise, size, level, grad, x - 1, y))
  }

  /** Pixel `x` of scanline `y` is painted at its offset with its own cloud test. */
  lemma PaintedNext(c: Canvas, noise: seq<seq<int>>, size: nat, level: int, grad: int, y: nat, x: nat, o: int)
    requires IsGrid(noise, size, size) && HeaderSize + size * Stride(size) <= |c.bytes|
    requires y < size && x < size && o == HeaderSize + y * Stride(size) + 3 * x
    ensures 0 <= o && o + 3 <= |c.bytes|
    ensures Painted(c, noise, size, level, grad, y, x + 1) ==
      PaintAt(Painted(c, noise, size, level, grad, y, x), o, Cloudy(noise, size, level, grad, x, y))
  {
    RowInImage(size, y, x);
  }

  /** Pixel `x` of scanline `y` lies inside the pixel data. */
  lemma RowInImage(size: nat, y: int, x: int)
    requires 0 <= y < size && 0 <= x < size
    ensures 0 <= HeaderSize + y * Stride(size) + 3 * x
    ensures HeaderSize + y * Stride(size) + 3 * x + 3 <= HeaderSize + size * Stride(size)
  {
    MulSucc(y, Stride(size));
    MulMonotone(y + 1, size, Stride(size));
  }

  /** The nested loops, `y` scanlines and `x` pixels into the pass, have painted
      what its first `n = y * size + x` steps paint. */
  lemma {:induction false} PaintedIsOverlaid(c: Canvas, noise: seq<seq<int>>, size: nat, level: int, grad: int,
                                             y: nat, x: nat, n: nat)
    requires IsGrid(noise, size, size) && HeaderSize + size * Stride(size) <= |c.bytes|
    requires x <= size && (y < size || (y == size && x == 0)) && n == y * size + x
    ensures n <= size * size
    ensures Painted(c, noise, size, level, grad, y, x) == Overlaid(c, size, CloudMask(noise, size, level, grad), n)
    decreases y, x
  {
    if x == 0 {
      RowFirst(size, y, n);
      if y > 0 {
        PaintedIsOverlaid(c, noise, size, level, grad, y - 1, size, n);
      }
    } else {
      PaintedIsOverlaid(c, noise, size, level, grad, y, x - 1, n - 1);
      var o := HeaderSize + y * Stride(size) + 3 * (x - 1);
      StepOf(noise, size, level, grad, y, x, n, o);
      PaintedAdvance(c, noise, size, level, grad, y, x, n, o);
    }
  }

  /** Scanline `y` starts at step `y * size`, where the previous one ends. */
  lemma RowFirst(size: nat, y: nat, n: int)
    requires y <= size && n == y * size
    ensures n <= size * size
    ensures y > 0 ==> n == (y - 1) * size + size
  {
    MulMonotone(y, size, size);
    if y > 0 {
      MulSucc(y - 1, size);
    }
  }

  /** One more pixel of the nested loops, at offset `o`, is one more step of the pass. */
  lemma PaintedAdvance(c: Canvas, noise: seq<seq<int>>, size: nat, level: int, grad: int, y: nat, x: nat, k: int, o: int)
    requires IsGrid(noise, size, size) && HeaderSize + size * Stride(size) <= |c.bytes|
    requires y < size && 0 < x <= size && o == HeaderSize + y * Stride(size) + 3 * (x - 1)
    requires 0 < k <= size * size && size > 0 && PixelOffset(size, k - 1) == o
    requires CloudMask(noise, size, level, grad)[k - 1] == Cloudy(noise, size, level, grad, x - 1, y)
    requires Painted(c, noise, size, level, grad, y, x - 1) == Overlaid(c, size, CloudMask(noise, size, level, grad), k - 1)
    ensures Painted(c, noise, size, level, grad, y, x) == Overlaid(c, size, CloudMask(noise, size, level, grad), k)
  {
    PaintedLast(c, noise, size, level, grad, y, x, o);
    OverlaidLast(c, size, CloudMask(noise, size, level, grad), k, o);
  }

  /** The last pixel painted in the first `x` of scanline `y` is pixel `x - 1`. */
  lemma PaintedLast(c: Canvas, noise: seq<seq<int>>, size: nat, level: int, grad: int, y: nat, x: nat, o: int)
    requires IsGrid(noise, size, size) && HeaderSize + size * Stride(size) <= |c.bytes|
    requires y < size && 0 < x <= size && o == HeaderSize + y * Stride(size) + 3 * (x - 1)
    ensures 0 <= o && o + 3 <= |c.bytes|
    ensures Painted(c, noise, size, level, grad, y, x) ==
      PaintAt(Painted(c, noise, size, level, grad, y, x - 1), o, Cloudy(noise, size, level, grad, x - 1, y))
  {
    RowInImage(size, y, x - 1);
  }

  /** Pixel `x - 1` of scanline `y`, at offset `o`, is step `k - 1` of the pass and
      has the cloud test of cell `(x - 1, y)`. */
  lemma StepOf(noise: seq<seq<int>>, size: nat, level: int, grad: int, y: int, x: int, k: int, o: int)
    requires IsGrid(noise, size, size) && 0 <= y < size && 0 < x <= size && k == y * size + x
    requires o == HeaderSize + y * Stride(size) + 3 * (x - 1)
    ensures 0 < k <= size * size && size > 0 && PixelOffset(size, k - 1) == o
    ensures CloudMask(noise, size, level, grad)[k - 1] == Cloudy(noise, size, level, grad, x - 1, y)
  {
    OffsetOf(size, y, x - 1);
    CloudMaskAt(noise, size, level, grad, y, x - 1);
  }

  /** Step `k - 1` of the pass paints the pixel at offset `o` with the cloud test `mask[k - 1]`. */
  lemma OverlaidLast(c: Canvas, size: nat, mask: seq<bool>, k: int, o: int)
    requires |mask| == size * size && HeaderSize + size * Stride(size) <= |c.bytes|
    requires 0 < k <= size * size && size > 0 && PixelOffset(size, k - 1) == o
    ensures 0 <= o && o + 3 <= |c.bytes|
    ensures Overlaid(c, size, mask, k) == PaintAt(Overlaid(c, size, mask, k - 1), o, mask[k - 1])
  {
    OffsetInImage(size, k - 1);
  }
}
