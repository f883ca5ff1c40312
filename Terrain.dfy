/** `generateMap`: the noise field, the classification of every cell into space,
    star, ocean or land, the two cleanup passes over lone pixels, and the bitmap
    written from the result. Cell `(x, y)` is pixel `p = x * size + y`, so in the
    bitmap `x` picks the scanline and `y` the position along it. */
module Terrain {
  import opened Types
  import opened Noise
  import opened Bitmap

  /** The parameters of `generateMap` besides the file name: the side of the square
      image, the noise maximum, the sea level and the averaging radius. */
  datatype Settings = Settings(size: nat, max: int8, seaLevel: int8, grad: int8)

  /** The radius keeps every on-planet window inside the grid; outside this range an
      on-planet cell averages over no members and the program floors a NaN. */
  predicate Sane(t: Settings)
  {
    0 <= t.grad <= CQuot(t.size, 2)
  }

  // ---------------------------------------------------------------- the planet disc

  /** The circle test: with `c = size / 2`, cell `(x, y)` lies strictly inside the
      circle of radius `c - grad` around `(c, c)`. */
  predicate OnPlanet(size: int, grad: int, x: int, y: int)
  {
    var c := CQuot(size, 2);
    (x - c) * (x - c) + (y - c) * (y - c) < (c - grad) * (c - grad)
  }

  /** The averaging window of every on-planet cell lies inside the grid, so its
      elevation is a mean over `Cells(grad)` noise values and never a NaN. */
  lemma OnPlanetWindow(size: int, grad: int, x: int, y: int)
    requires 0 <= grad <= CQuot(size, 2) && OnPlanet(size, grad, x, y)
    ensures InWindow(size, size, x, y, grad)
    ensures 0 <= x < size && 0 <= y < size
  {
    var c := CQuot(size, 2);
    var d := c - grad;
    Square(y - c);
    Square(x - c);
    SquareBelow(x - c, d);
    SquareBelow(y - c, d);
  }

  lemma Square(a: int)
    ensures a * a >= 0
  {
    if a < 0 {
      MulMonotone(a, 0, -a);
    }
  }

  /** A square below `d * d` has its root strictly between `-d` and `d`. */
  lemma SquareBelow(a: int, d: int)
    requires 0 <= d && a * a <= d * d - 1
    ensures -d < a < d
  {
    if a >= d {
      MulMonotone(d, a, a);
      MulMonotone(d, a, d);
    } else if a <= -d {
      MulMonotone(d, -a, -a);
      MulMonotone(d, -a, d);
    }
  }

  /** The disc is symmetric under swapping the coordinates and under reflection
      through its centre. */
  lemma PlanetSymmetric(size: int, grad: int, x: int, y: int)
    ensures OnPlanet(size, grad, x, y) == OnPlanet(size, grad, y, x)
    ensures var c := CQuot(size, 2);
      OnPlanet(size, grad, x, y) == OnPlanet(size, grad, 2 * c - x, 2 * c - y)
  {
  }

  // ---------------------------------------------------------------- classification

  /** The land colour for elevation `avg`: `160 + 20 * (avg - max / 2)` stored in a
      `uint8_t`, so it wraps modulo 256. Every value it takes is even, so land is
      never the 255 green of a star. */
  function LandGreen(avg: int, max: int): (g: byte)
    ensures g % 2 == 0 && g != 255
  {
    EvenByte(80 + 10 * (avg - CQuot(max, 2)));
    ToByte(160 + 20 * (avg - CQuot(max, 2)))
  }

  lemma EvenByte(m: int)
    ensures ToByte(2 * m) % 2 == 0
  {
    var q := (2 * m) / 256;
    assert ToByte(2 * m) == 2 * (m - 128 * q);
  }

  /** The wrap-around reaches 0: with maximum 40, land at elevation 12 gets green 0
      and is coloured like empty space. */
  lemma LandCanBeBlack()
    ensures LandGreen(12, 40) == 0
    ensures Pixel(0, LandGreen(12, 40), 0) == Black
  {
  }

  /** The floor of the mean noise over an on-planet cell's window. */
  function Elevation(noise: seq<seq<int>>, t: Settings, x: int, y: int): (e: int)
    requires IsGrid(noise, t.size, t.size) && Sane(t) && OnPlanet(t.size, t.grad, x, y)
    ensures InWindow(t.size, t.size, x, y, t.grad)
    ensures e * Cells(t.grad) <= WindowSum(noise, t.size, t.size, x, y, t.grad) < (e + 1) * Cells(t.grad)
  {
    OnPlanetWindow(t.size, t.grad, x, y);
    FloorOf(WindowSum(noise, t.size, t.size, x, y, t.grad), Cells(t.grad)).value
  }

  /** Over a drawn noise field the elevation lies in `[0, max]`. */
  lemma ElevationRange(raw: seq<seq<int>>, t: Settings, x: int, y: int)
    requires 0 <= t.max && IsGrid(raw, t.size, t.size) && Drawn(raw)
    requires Sane(t) && OnPlanet(t.size, t.grad, x, y)
    ensures 0 <= Elevation(NoiseField(t.size, t.max, raw), t, x, y) <= t.max
  {
    NoiseFieldRange(t.size, t.max, raw);
    OnPlanetWindow(t.size, t.grad, x, y);
    WindowMeanBounds(NoiseField(t.size, t.max, raw), t.size, t.size, x, y, t.grad, 0, t.max);
  }

  /** The colours a map pixel can take: space, a star, the ocean colour, or a
      shade of green with blue and red at 0. */
  predicate Palette(px: Pixel)
  {
    px == White || px == Ocean || (px.b == 0 && px.r == 0)
  }

  /** One cell of the classification loop, from the pixel's prior contents and the
      star draw `star` made for it. */
  function ClassifyCell(prior: Pixel, noise: seq<seq<int>>, t: Settings, star: int, x: int, y: int): (px: Pixel)
    requires IsGrid(noise, t.size, t.size) && Sane(t)
    ensures !OnPlanet(t.size, t.grad, x, y) ==>
      (px == White || px == Black) && (px == White <==> Rng(0, 100, star) == 1)
    ensures OnPlanet(t.size, t.grad, x, y) ==> (px.r == prior.r &&
      (Elevation(noise, t, x, y) <= t.seaLevel ==> px.b == 128 && px.g == prior.g) &&
      (Elevation(noise, t, x, y) > t.seaLevel ==> px.b == prior.b && px.g % 2 == 0))
    ensures prior == Black ==> Palette(px)
  {
    if OnPlanet(t.size, t.grad, x, y) then
      var avg := Elevation(noise, t, x, y);
      if avg <= t.seaLevel then prior.(b := 128) else prior.(g := LandGreen(avg, t.max))
    else if Rng(0, 100, star) == 1 then White
    else Black
  }

  /** Pixel `p` names cell `(p / size, p % size)` of the grid. */
  lemma CellOf(size: nat, p: int)
    requires 0 <= p < size * size
    ensures 0 <= p / size < size && 0 <= p % size < size
  {
    if p / size >= size {
      MulMonotone(size, p / size, size);
    }
  }

  function ClassifiedAt(prior: seq<Pixel>, noise: seq<seq<int>>, stars: seq<seq<int>>, t: Settings, p: int): Pixel
    requires |prior| == t.size * t.size && 0 <= p < |prior|
    requires IsGrid(noise, t.size, t.size) && IsGrid(stars, t.size, t.size) && Sane(t)
  {
    CellOf(t.size, p);
    var x, y := p / t.size, p % t.size;
    ClassifyCell(prior[p], noise, t, stars[x][y], x, y)
  }

  /** The image after the classification loop: every cell classified once. */
  function Classified(prior: seq<Pixel>, noise: seq<seq<int>>, stars: seq<seq<int>>, t: Settings): (im: seq<Pixel>)
    requires |prior| == t.size * t.size
    requires IsGrid(noise, t.size, t.size) && IsGrid(stars, t.size, t.size) && Sane(t)
    ensures |im| == |prior|
  {
    seq(|prior|, p requires 0 <= p < |prior| => ClassifiedAt(prior, noise, stars, t, p))
  }

  /** Pixel `x * size + y` of the classified image is cell `(x, y)` classified from
      that pixel's prior contents and the star draw for `(x, y)`. */
  lemma ClassifiedCell(prior: seq<Pixel>, noise: seq<seq<int>>, stars: seq<seq<int>>, t: Settings, x: int, y: int)
    requires |prior| == t.size * t.size
    requires IsGrid(noise, t.size, t.size) && IsGrid(stars, t.size, t.size) && Sane(t)
    requires 0 <= x < t.size && 0 <= y < t.size
    ensures 0 <= x * t.size + y < |prior|
    ensures Classified(prior, noise, stars, t)[x * t.size + y] ==
      ClassifyCell(prior[x * t.size + y], noise, t, stars[x][y], x, y)
  {
    var p := x * t.size + y;
    MulMonotone(x + 1, t.size, t.size);
    MulSucc(x, t.size);
    CellAt(prior, noise, stars, t, p, x, y);
  }

  /** The classification loop of `generateMap`: for each `x` and `y`, pixel `p`
      becomes ocean (blue 128) or land (a green shade) on the planet, and a star or
      space off it. */
  method Classify(im: array<Pixel>, noise: seq<seq<int>>, stars: seq<seq<int>>, t: Settings)
    requires im.Length == t.size * t.size
    requires IsGrid(noise, t.size, t.size) && IsGrid(stars, t.size, t.size) && Sane(t)
    modifies im
    ensures im[..] == Classified(old(im[..]), noise, stars, t)
  {
    ghost var prior := im[..];
    var p := 0;
    var x := 0;
    while x < t.size
      invariant 0 <= x <= t.size && p == x * t.size
      invariant ClassifiedUpTo(im[..], prior, noise, stars, t, p)
    {
      MulMonotone(x + 1, t.size, t.size);
      MulSucc(x, t.size);
      var y := 0;
      while y < t.size
        invariant 0 <= y <= t.size && p == x * t.size + y
        invariant ClassifiedUpTo(im[..], prior, noise, stars, t, p)
      {
        CellAt(prior, noise, stars, t, p, x, y);
        ghost var before := im[..];
        ClassifyPixel(im, noise, stars[x][y], t, p, x, y);
        ClassifiedNext(before, im[..], prior, noise, stars, t, p);
        p := p + 1;
        y := y + 1;
      }
      x := x + 1;
    }
    assert im[..] == Classified(prior, noise, stars, t);
  }

  /** The pixels before `p` are classified and the rest still hold `prior`. */
  ghost predicate ClassifiedUpTo(s: seq<Pixel>, prior: seq<Pixel>, noise: seq<seq<int>>, stars: seq<seq<int>>, t: Settings, p: int)
    requires |prior| == t.size * t.size
    requires IsGrid(noise, t.size, t.size) && IsGrid(stars, t.size, t.size) && Sane(t)
  {
    |s| == |prior| && 0 <= p <= |s| &&
    forall q :: 0 <= q < |s| ==> s[q] == if q < p then ClassifiedAt(prior, noise, stars, t, q) else prior[q]
  }

  lemma ClassifiedNext(s: seq<Pixel>, s': seq<Pixel>, prior: seq<Pixel>, noise: seq<seq<int>>, stars: seq<seq<int>>, t: Settings, p: int)
    requires |prior| == t.size * t.size
    requires IsGrid(noise, t.size, t.size) && IsGrid(stars, t.size, t.size) && Sane(t)
    requires ClassifiedUpTo(s, prior, noise, stars, t, p) && p < |s|
    requires s' == s[p := ClassifiedAt(prior, noise, stars, t, p)]
    ensures ClassifiedUpTo(s', prior, noise, stars, t, p + 1)
  {
  }

  /** Pixel `p = x * size + y` is classified as cell `(x, y)`. */
  lemma CellAt(prior: seq<Pixel>, noise: seq<seq<int>>, stars: seq<seq<int>>, t: Settings, p: int, x: int, y: int)
    requires |prior| == t.size * t.size && 0 <= p < |prior|
    requires IsGrid(noise, t.size, t.size) && IsGrid(stars, t.size, t.size) && Sane(t)
    requires 0 <= y < t.size && p == x * t.size + y
    ensures 0 <= x < t.size
    ensures ClassifiedAt(prior, noise, stars, t, p) == ClassifyCell(prior[p], noise, t, stars[x][y], x, y)
  {
    DivModOf(t.size, p, x, y);
    CellOf(t.size, p);
  }

  /** The body of the classification loop at pixel `p`, cell `(x, y)`. */
  method ClassifyPixel(im: array<Pixel>, noise: seq<seq<int>>, star: int, t: Settings, p: int, x: int, y: int)
    requires IsGrid(noise, t.size, t.size) && Sane(t) && 0 <= p < im.Length
    modifies im
    ensures im[..] == old(im[..])[p := ClassifyCell(old(im[p]), noise, t, star, x, y)]
  {
    if OnPlanet(t.size, t.grad, x, y) {
      OnPlanetWindow(t.size, t.grad, x, y);
      var sum, members := AverageOfNeighbors(noise, t.size, t.size, x, y, t.grad);
      var avg := sum / members;
      if avg <= t.seaLevel {
        im[p] := im[p].(b := 128);
      } else {
        im[p] := im[p].(g := LandGreen(avg, t.max));
      }
    } else {
      if Rng(0, 100, star) == 1 {
        im[p] := White;
      } else {
        im[p] := Black;
      }
    }
  }

  // ---------------------------------------------------------------- cleanup

  /** A channel value the cleanup rules treat as flat: 0 or 255. */
  predicate Flat(v: int)
  {
    v == 0 || v == 255
  }

  /** One cleanup step at pixel `p`, reading its neighbours in the scanlines before
      and after (`p - size`, `p + size`) and along its own (`p - 1`, `p + 1`). A
      shaded pixel between two ocean pixels is flooded; then a pixel with shaded blue
      whose four neighbours all have non-zero green takes its left neighbour's green.
      Red never changes, a pixel flat in blue and green never changes, and the map
      palette is kept. */
  function Relabel(s: seq<Pixel>, size: int, p: int): (px: Pixel)
    requires 1 <= size <= p && p + size < |s|
    ensures px.r == s[p].r
    ensures Flat(s[p].b) && Flat(s[p].g) ==> px == s[p]
    ensures Palette(s[p]) ==> Palette(px)
  {
    var above, below, left, right := s[p - size], s[p + size], s[p - 1], s[p + 1];
    var here := s[p];
    var flooded :=
      if !Flat(here.g) && ((above.b == 128 && below.b == 128) || (left.b == 128 && right.b == 128))
      then here.(b := 128, g := 0)
      else here;
    if !Flat(flooded.b) && left.g != 0 && right.g != 0 && above.g != 0 && below.g != 0
    then flooded.(b := 0, g := left.g)
    else flooded
  }

  /** A shaded pixel with a blue-128 pair on both sides of it, vertically or
      horizontally, is flooded: it takes blue 128 and green 0 and keeps its red,
      provided some neighbour has green 0 so that the second rule does not fire. */
  lemma LoneLandFlooded(s: seq<Pixel>, size: int, p: int)
    requires 1 <= size <= p && p + size < |s|
    requires !Flat(s[p].g)
    requires (s[p - size].b == 128 && s[p + size].b == 128) || (s[p - 1].b == 128 && s[p + 1].b == 128)
    requires s[p - 1].g == 0 || s[p + 1].g == 0 || s[p - size].g == 0 || s[p + size].g == 0
    ensures Relabel(s, size, p) == s[p].(b := 128, g := 0)
  {
  }

  /** A pixel with shaded blue whose four neighbours all have non-zero green is
      filled: it takes blue 0 and the green of its left neighbour and keeps its
      red, whether or not the first rule flooded it before. */
  lemma LoneOceanFilled(s: seq<Pixel>, size: int, p: int)
    requires 1 <= size <= p && p + size < |s|
    requires !Flat(s[p].b)
    requires s[p - 1].g != 0 && s[p + 1].g != 0 && s[p - size].g != 0 && s[p + size].g != 0
    ensures Relabel(s, size, p) == s[p].(b := 0, g := s[p - 1].g)
  {
  }

  /** A star counts as a green neighbour: an ocean pixel with a star on its left and
      land on its other three sides becomes pure green `(0, 255, 0)`, a colour that
      is neither land nor space. */
  lemma StarMakesGreen(s: seq<Pixel>, size: int, p: int)
    requires 1 <= size <= p && p + size < |s|
    requires s[p] == Ocean && s[p - 1] == White
    requires s[p + 1].g != 0 && s[p - size].g != 0 && s[p + size].g != 0
    ensures Relabel(s, size, p) == Pixel(0, 255, 0)
  {
    LoneOceanFilled(s, size, p);
  }

  /** Whether the cleanup step at a pixel reads its neighbours: both rules first
      test the pixel's own green or blue, so a pixel flat in both reads nothing. */
  predicate Reads(px: Pixel)
  {
    !Flat(px.g) || !Flat(px.b)
  }

  /** The pixels of the first and the last scanline read no neighbour, so no step
      of the cleanup loop reads outside the buffer. */
  predicate EdgesFlat(s: seq<Pixel>, size: int)
  {
    forall q :: 0 <= q < |s| && (q < size || |s| - size <= q) ==> !Reads(s[q])
  }

  /** The cleanup step at pixel `p`: a pixel flat in blue and green is left alone
      without a look at its neighbours; any other is relabelled. */
  function Step(s: seq<Pixel>, size: int, p: int): (r: seq<Pixel>)
    requires 0 <= p < |s| && (Reads(s[p]) ==> 1 <= size <= p && p + size < |s|)
    ensures |r| == |s| && r[p].r == s[p].r
    ensures forall q :: 0 <= q < |s| && q != p ==> r[q] == s[q]
    ensures !Reads(s[p]) ==> r == s
  {
    if Reads(s[p]) then s[p := Relabel(s, size, p)] else s
  }

  /** The buffer after the cleanup steps at `p = 0, ..., n - 1`, in order, each
      seeing the pixels the earlier steps rewrote. A pixel the loop has not reached
      and a pixel flat in blue and green both keep their value. */
  function SweepTo(s: seq<Pixel>, size: nat, n: nat): (r: seq<Pixel>)
    requires |s| == size * size && n <= |s| && EdgesFlat(s, size)
    ensures |r| == |s|
    ensures forall q :: n <= q < |s| ==> r[q] == s[q]
    ensures forall q :: 0 <= q < |s| && !Reads(s[q]) ==> r[q] == s[q]
    decreases n
  {
    if n == 0 then s else Step(SweepTo(s, size, n - 1), size, n - 1)
  }

  /** One pass of the cleanup loop, over every pixel. It keeps the edges flat. */
  function Sweep(s: seq<Pixel>, size: nat): (r: seq<Pixel>)
    requires |s| == size * size && EdgesFlat(s, size)
    ensures |r| == |s| && EdgesFlat(r, size)
  {
    SweepTo(s, size, |s|)
  }

  /** `k` passes of the cleanup loop. */
  function Sweeps(s: seq<Pixel>, size: nat, k: nat): (r: seq<Pixel>)
    requires |s| == size * size && EdgesFlat(s, size)
    ensures |r| == |s| && EdgesFlat(r, size)
  {
    if k == 0 then s else Sweep(Sweeps(s, size, k - 1), size)
  }

  /** What a pass keeps of pixel `q`: its red channel and membership in the map
      palette. */
  lemma {:induction false} SweepToKeeps(s: seq<Pixel>, size: nat, n: nat, q: int)
    requires |s| == size * size && n <= |s| && EdgesFlat(s, size) && 0 <= q < |s|
    ensures SweepTo(s, size, n)[q].r == s[q].r
    ensures Palette(s[q]) ==> Palette(SweepTo(s, size, n)[q])
  {
    if n > 0 {
      SweepToKeeps(s, size, n - 1, q);
    }
  }

  /** Over any number of passes every pixel keeps its red channel; the first and the
      last scanline and every pixel flat in blue and green keep their whole value;
      and the map palette is kept. */
  lemma {:induction false} SweepsKeep(s: seq<Pixel>, size: nat, k: nat, q: int)
    requires |s| == size * size && EdgesFlat(s, size) && 0 <= q < |s|
    ensures Sweeps(s, size, k)[q].r == s[q].r
    ensures q < size || |s| - size <= q ==> Sweeps(s, size, k)[q] == s[q]
    ensures !Reads(s[q]) ==> Sweeps(s, size, k)[q] == s[q]
    ensures Palette(s[q]) ==> Palette(Sweeps(s, size, k)[q])
  {
    if k > 0 {
      var t := Sweeps(s, size, k - 1);
      SweepsKeep(s, size, k - 1, q);
      SweepToKeeps(t, size, |t|, q);
    }
  }

  /** The body of the cleanup loop at pixel `p`, as the program writes it. It reads
      a neighbour only after the pixel's own green or blue has shown it shaded. */
  method CleanStep(im: array<Pixel>, size: int, p: int)
    requires 0 <= p < im.Length && (Reads(im[p]) ==> 1 <= size <= p && p + size < im.Length)
    modifies im
    ensures im[..] == Step(old(im[..]), size, p)
  {
    if im[p].g != 0 && im[p].g != 255 {
      if im[p - size].b == 128 && im[p + size].b == 128 {
        im[p] := im[p].(b := 128, g := 0);
      }
      if im[p - 1].b == 128 && im[p + 1].b == 128 {
        im[p] := im[p].(b := 128, g := 0);
      }
    }
    if im[p].b != 0 && im[p].b != 255 {
      if im[p - 1].g != 0 && im[p + 1].g != 0 && im[p - size].g != 0 && im[p + size].g != 0 {
        im[p] := im[p].(b := 0, g := im[p - 1].g);
      }
    }
  }

  /** The two cleanup passes of `generateMap`. */
  method Cleanup(im: array<Pixel>, size: nat)
    requires im.Length == size * size && EdgesFlat(im[..], size)
    modifies im
    ensures im[..] == Sweeps(old(im[..]), size, 2)
  {
    var i := 0;
    while i < 2
      invariant 0 <= i <= 2 && im[..] == Sweeps(old(im[..]), size, i)
    {
      CleanPass(im, size);
      i := i + 1;
    }
  }

  /** One pass of the cleanup loop, `p` running from 0 to `size * size - 1`. */
  method CleanPass(im: array<Pixel>, size: nat)
    requires im.Length == size * size && EdgesFlat(im[..], size)
    modifies im
    ensures im[..] == Sweep(old(im[..]), size)
  {
    var p := 0;
    while p < size * size
      invariant 0 <= p <= size * size
      invariant im[..] == SweepTo(old(im[..]), size, p)
    {
      CleanStep(im, size, p);
      p := p + 1;
    }
  }

  // ---------------------------------------------------------------- the edges

  /** The side and radius for which the first and the last scanline lie off the
      planet: an odd side, or a radius of at least 1. */
  predicate ClearEdges(t: Settings)
  {
    1 <= t.grad || t.size % 2 == 1
  }

  /** With `ClearEdges`, no cell of the first or the last scanline is on the
      planet. */
  lemma EdgesOffPlanet(size: nat, grad: int, x: int, y: int)
    requires 0 <= grad <= CQuot(size, 2) && (1 <= grad || size % 2 == 1)
    requires x == 0 || x == size - 1
    ensures !OnPlanet(size, grad, x, y)
  {
    var c := CQuot(size, 2);
    var d := c - grad;
    Square(y - c);
    if x == 0 {
      MulMonotone(d, c, d);
      MulMonotone(d, c, c);
    } else {
      var a := size - 1 - c;
      assert d <= a;
      MulMonotone(d, a, d);
      MulMonotone(d, a, a);
    }
  }

  /** Without `ClearEdges` the last scanline can hold planet: with side 10 and
      radius 0, cell `(9, 5)` is on the planet, and its cleanup step reads past
      the end of the buffer whenever it is shaded. */
  lemma EdgeOnPlanet()
    ensures Sane(Settings(10, 16, 0, 0)) && !ClearEdges(Settings(10, 16, 0, 0))
    ensures OnPlanet(10, 0, 9, 5)
  {
  }

  /** With `ClearEdges`, classification leaves only space and stars in the first
      and the last scanline, so the cleanup loop reads nothing outside the buffer. */
  lemma ClassifiedEdges(prior: seq<Pixel>, noise: seq<seq<int>>, stars: seq<seq<int>>, t: Settings)
    requires |prior| == t.size * t.size
    requires IsGrid(noise, t.size, t.size) && IsGrid(stars, t.size, t.size) && Sane(t) && ClearEdges(t)
    ensures EdgesFlat(Classified(prior, noise, stars, t), t.size)
  {
    var s := Classified(prior, noise, stars, t);
    forall q | 0 <= q < |s| && (q < t.size || |s| - t.size <= q)
      ensures !Reads(s[q])
    {
      EdgeRow(t.size, q);
      EdgesOffPlanet(t.size, t.grad, q / t.size, q % t.size);
      assert s[q] == ClassifiedAt(prior, noise, stars, t, q);
    }
  }

  /** A pixel of the first or the last scanline lies in row 0 or row `size - 1`. */
  lemma EdgeRow(size: nat, q: int)
    requires 0 <= q < size * size && (q < size || size * size - size <= q)
    ensures q / size == 0 || q / size == size - 1
  {
    if q < size {
      DivModOf(size, q, 0, q);
    } else {
      MulSucc(size - 1, size);
      DivModOf(size, q, size - 1, q - (size - 1) * size);
    }
  }

  // ---------------------------------------------------------------- the whole map

  /** `generateMap` on a freshly allocated pixel buffer `im`, with `raw[x][y]` the
      draw for the noise at `(x, y)` and `stars[x][y]` the draw for its star test:
      the buffer ends up classified and cleaned, and the file written is its
      bitmap at resolution 0. */
  method GenerateMap(im: array<Pixel>, t: Settings, raw: seq<seq<int>>, stars: seq<seq<int>>)
    returns (file: array<byte>)
    requires im.Length == t.size * t.size
    requires IsGrid(raw, t.size, t.size) && IsGrid(stars, t.size, t.size)
    requires t.max != -1 && Sane(t) && ClearEdges(t)
    modifies im
    ensures EdgesFlat(Classified(old(im[..]), NoiseField(t.size, t.max, raw), stars, t), t.size)
    ensures im[..] == Sweeps(Classified(old(im[..]), NoiseField(t.size, t.max, raw), stars, t), t.size, 2)
    ensures file[..] == Encode(t.size, t.size, 0, im[..])
  {
    var noise := FillNoise(t.size, t.max, raw);
    Classify(im, noise, stars, t);
    ClassifiedEdges(old(im[..]), noise, stars, t);
    Cleanup(im, t.size);
    file := GenerateBitmap(t.size, t.size, 0, im);
    assert im[..t.size * t.size] == im[..];
  }

  /** On a zeroed buffer the finished map holds only palette colours, and every
      off-planet cell is exactly what its star draw made it: a star when the draw
      gives 1, space otherwise. */
  lemma MapPixel(blank: seq<Pixel>, noise: seq<seq<int>>, stars: seq<seq<int>>, t: Settings, x: int, y: int)
    requires |blank| == t.size * t.size && forall q :: 0 <= q < |blank| ==> blank[q] == Black
    requires IsGrid(noise, t.size, t.size) && IsGrid(stars, t.size, t.size) && Sane(t) && ClearEdges(t)
    requires 0 <= x < t.size && 0 <= y < t.size
    ensures 0 <= x * t.size + y < |blank|
    ensures EdgesFlat(Classified(blank, noise, stars, t), t.size)
    ensures var m := Sweeps(Classified(blank, noise, stars, t), t.size, 2);
      Palette(m[x * t.size + y]) &&
      (!OnPlanet(t.size, t.grad, x, y) ==>
        m[x * t.size + y] == (if Rng(0, 100, stars[x][y]) == 1 then White else Black))
  {
    var p := x * t.size + y;
    ClassifiedCell(blank, noise, stars, t, x, y);
    var c := Classified(blank, noise, stars, t);
    ClassifiedEdges(blank, noise, stars, t);
    assert c[p] == ClassifyCell(Black, noise, t, stars[x][y], x, y);
    SweepsKeep(c, t.size, 2, p);
  }
}
