# planetgen in Dafny

planetgen draws a picture of a planet as a 24-bit BMP file. `generateMap` does four things:

- fills a square grid with random noise;
- classifies every cell:
  - inside a circle it becomes ocean or land, by the floored mean of the noise around the cell;
  - outside the circle it becomes a star or empty space;
- runs two cleanup passes that flood lone land pixels and fill lone ocean pixels;
- writes the image with `generateBitmap`.

`overlayClouds` reopens such a file and works on a second noise field. For each pixel over the planet, it clears any cloud an earlier run drew, then draws a cloud where the cloud noise is dense. It updates the pixel data in place.

This project models these functions in Dafny and proves properties of them:

- `rng`
- `generateBitmap`
- `averageOfNeighbors`
- `generateMap`
- `overlayClouds`

The modules follow the program:

| module | models |
|---|---|
| `Types` | The C scalar types: `uint8_t` channels, signed `char` parameters, and C's truncating `/` and `%`. |
| `Noise` | `rng`, the noise fill, and `averageOfNeighbors`. `averageOfNeighbors` is a method whose loops are proved against a window sum. Its caller's `floor` is the `Floored` datatype, whose `NaN` case is the mean of an empty window. |
| `Bitmap` | The packed little-endian headers. `Encode` is the file as a sequence of bytes. `GenerateBitmap` writes that file into an array, one triple and one padding byte at a time. Lemmas read every header field back and every pixel back from its offset. |
| `Terrain` | `generateMap`: the circle test, the classification loop (`Classify`), and the cleanup loop (`Cleanup`). Each loop is a method over the pixel array, proved equal to a function of the old contents (`Classified`, `Sweeps`). Lemmas about those functions state what the map looks like. |
| `Clouds` | `overlayClouds` on the file as a byte array. The pixel loop is proved equal to `Overlaid`, a fold of single-pixel steps. Lemmas about `Overlaid` state what happens to each pixel, to the headers and to the padding. |

Randomness is lifted out: every `rand()` value the program would consume is an input, `raw[x][y]` or `stars[x][y]`.

The proofs bring out several behaviours of the program as written:

- `Terrain.LandCanBeBlack`: the land green `160 + 20 * (avg - max / 2)` wraps modulo 256. It can be 0. Classification writes only the green of a land pixel, so on a pixel whose blue and red were already 0 (as in a zeroed buffer) such land is drawn like empty space.
- `Terrain.StarMakesGreen`: cleanup counts a star as a green neighbour. An ocean pixel next to a star can become pure green `(0, 255, 0)`.
- `Clouds.StuckCloud`: a cloud over land of green 180 is `(220, 255, 220)`. That colour fails the over-planet test, so no later run clears it. Green 180 occurs with the program's own kind of parameters: noise maximum 16, elevation 9.
- `Bitmap.EncodeSize`: the header's file size field counts two padding bytes per row. It equals the real file length only when `width % 4 == 2`.

## Model

| member | source | states |
|---|---|---|
| Types.CQuot | planetgen.c:125 | C's `/`: the quotient times the divisor lies between 0 and the dividend, within one divisor of it. |
| Types.CRem | planetgen.c:10 | C's `%`: quotient times divisor plus remainder is the dividend; the remainder is smaller than the divisor and has the dividend's sign. |
| Noise.Rng | planetgen.c:9-11 | `rng(min, max)` lies in `[min, max]` for every non-negative draw, and is `min + draw` for a draw inside the range. |
| Noise.NoiseField | planetgen.c:114-118 | The noise grid is `size` by `size`. |
| Noise.NoiseFieldRange | planetgen.c:114-118 | Every noise value drawn with `rng(0, max)` lies in `[0, max]`. |
| Noise.FillNoise | planetgen.c:114-118 | The fill loops produce exactly the noise field: cell `[x][y]` is `rng(0, max)` of its draw. |
| Noise.Cells | planetgen.c:88-93 | A window of radius `r >= 0` has at least `2r + 1` cells. |
| Noise.AverageOfNeighbors | planetgen.c:82-96 | If the window is inside the grid, `sum` is the window sum and `members` is `(2r+1)^2`. Otherwise both are 0, so the mean is a NaN. |
| Noise.FloorOf | planetgen.c:95 | `floor(sum / members)` is NaN exactly when `members` is 0. Otherwise it is the largest integer whose multiple by `members` is at most `sum`. |
| Noise.WindowMeanBounds | planetgen.c:82-96 | For noise in `[lo, hi]`, the floored mean over any in-grid window lies in `[lo, hi]`. |
| Noise.ColumnSumBounds | planetgen.c:89-92 | A partial column of `n` values in `[lo, hi]` sums to between `n*lo` and `n*hi`. |
| Noise.BlockSumBounds | planetgen.c:88-93 | `m` whole columns sum to between `m(2r+1)lo` and `m(2r+1)hi`. |
| Noise.MeanBetween | planetgen.c:95 | A sum of `n` values in `[lo, hi]` has its floored mean in `[lo, hi]`. |
| Bitmap.LE16 | planetgen.c:20-26 | A `uint16_t` field is two bytes. |
| Bitmap.LE32 | planetgen.c:20-40 | A 32-bit field is four bytes. |
| Bitmap.LE16RoundTrip | planetgen.c:20-26 | A 16-bit field reads back as its value modulo 2^16. |
| Bitmap.LE32RoundTrip | planetgen.c:20-40 | A 32-bit field reads back as its value modulo 2^32. A value in `int32_t` range reads back exactly as a signed field. |
| Bitmap.FileHeader | planetgen.c:47-51 | The packed file header is 14 bytes. |
| Bitmap.InfoHeader | planetgen.c:53-63 | The packed info header is 40 bytes. |
| Bitmap.FileHeaderFields | planetgen.c:47-51 | The file header decodes to "BM", the size modulo 2^32, two zero reserved fields, and offset 54. |
| Bitmap.InfoHeaderFields | planetgen.c:53-63 | The info header decodes to: header size 40, the width and height, 1 plane, 24 bits, no compression, the image size modulo 2^32, the resolution twice, and no palette. |
| Bitmap.Encode | planetgen.c:17-80 | The file is the 54 header bytes plus `h` scanlines of `Stride(w)` bytes. |
| Bitmap.EncodeFileHeader | planetgen.c:44-51 | The first 14 bytes of the file carry the file header fields. The size field is `54 + 3wh + 2h` modulo 2^32. |
| Bitmap.EncodeInfoHeader | planetgen.c:43-63 | The next 40 bytes carry the info header fields. The image size field is `3hw` modulo 2^32. |
| Bitmap.FileSize | planetgen.c:44 | The size the program computes: both headers, three bytes per pixel and two padding bytes per scanline. |
| Bitmap.SizeField | planetgen.c:44 | The size field holds `54 + 3wh + 2h`, truncated to 32 bits. |
| Bitmap.EncodeSize | planetgen.c:44 | The file is `54 + h(3w + w%4)` bytes long. The size field equals that length exactly when `h == 0` or `w % 4 == 2`. |
| Bitmap.EncodePixel | planetgen.c:71-72 | Decoding the triple at pixel `i`'s offset (scanline `i / w`, column `i % w`) gives back `pixels[i]`. |
| Bitmap.EncodePadding | planetgen.c:73-77 | Each of the `w % 4` bytes after every scanline is zero. |
| Bitmap.StrideAligned | planetgen.c:74 | A scanline with `w % 4` padding bytes has a length that is a multiple of 4. `w % 4` equals the standard padding `(4 - 3w % 4) % 4`. |
| Bitmap.Emitted | planetgen.c:71-78 | What the pixel loop has written after `n` iterations: each triple, and `w % 4` zero bytes after every `w`-th pixel. |
| Bitmap.EmittedLength | planetgen.c:71-78 | After `n` pixels the loop has written `n / w` whole scanlines and `n % w` triples. |
| Bitmap.EmittedPrefix | planetgen.c:71-78 | The pixel loop only ever appends to what it has written. |
| Bitmap.GenerateBitmap | planetgen.c:17-80 | The file written is exactly `Encode(w, h, ppm, pixels)`. |
| Bitmap.WritePixels | planetgen.c:71-78 | After `n` iterations the file from the header on holds the first `n` pixels' triples and their scanline padding. Everything before and after that is untouched. |
| Bitmap.WritePixel | planetgen.c:72-77 | One iteration appends one triple and its padding at the cursor, and the bytes after them are untouched. |
| Bitmap.Store | planetgen.c:221-222 | Writing a pixel makes it read back as written and keeps every other byte. Writing back the pixel just read changes nothing. |
| Bitmap.WriteTriple | planetgen.c:72 | The `fwrite` of one pixel stores its three bytes at the cursor, as `Store` does, and nothing else. |
| Bitmap.WriteZeros | planetgen.c:74-76 | The padding `fputc` calls append `n` zero bytes at the cursor, and the bytes after them are untouched. |
| Bitmap.CopyHeader | planetgen.c:66-67 | The header bytes are written at the front and the rest of the file is kept. |
| Terrain.OnPlanet | planetgen.c:125 | The circle test: with `c = size / 2`, cell `(x, y)` is on the planet when its squared distance from `(c, c)` is below `(c - grad)^2`. |
| Terrain.OnPlanetWindow | planetgen.c:123-125 | The averaging window of every on-planet cell lies inside the grid, so the cell's elevation is never a NaN. |
| Terrain.PlanetSymmetric | planetgen.c:125 | The disc is symmetric under swapping `x` and `y` and under reflection through its centre. |
| Terrain.LandGreen | planetgen.c:130 | The land green is always even, so land is never the 255 green of a star. |
| Terrain.LandCanBeBlack | planetgen.c:130 | With maximum 40 and elevation 12 the land green wraps to 0, and the pixel is black. |
| Terrain.Elevation | planetgen.c:123 | An on-planet cell's window lies in the grid, and its elevation is the floor of the window's mean: `e * members <= sum < (e + 1) * members`. |
| Terrain.ElevationRange | planetgen.c:114-123 | An on-planet cell's elevation lies in `[0, max]`. |
| Terrain.ClassifyCell | planetgen.c:123-144 | Off the planet: a star exactly when `rng(0, 100)` gives 1, else space. On the planet, red is untouched. At or below sea level, blue becomes 128 and green is kept. Above it, blue is kept and green becomes an even shade. A zeroed pixel ends in the map palette. |
| Terrain.ClassifiedCell | planetgen.c:120-147 | Pixel `x * size + y` of the classified image is cell `(x, y)` classified with its own star draw. |
| Terrain.Classified | planetgen.c:120-147 | The classified image has one pixel per cell, pixel `p` being cell `(p / size, p % size)` classified from its prior contents. |
| Terrain.Classify | planetgen.c:120-147 | The classification loops leave the buffer equal to `Classified` of its old contents. |
| Terrain.ClassifyPixel | planetgen.c:123-145 | The loop body changes pixel `p` alone, to its classified value. |
| Terrain.Relabel | planetgen.c:151-167 | A cleanup step keeps red. It never changes a pixel whose blue and green are each 0 or 255. It keeps a map-palette pixel inside the palette. |
| Terrain.LoneLandFlooded | planetgen.c:151-160 | A pixel with green not 0 or 255 that has a blue-128 neighbour on both sides, vertically or horizontally, takes blue 128 and green 0 and keeps its red, when some neighbour has green 0 so the second rule does not fire. |
| Terrain.LoneOceanFilled | planetgen.c:161-167 | A pixel with blue not 0 or 255 whose four neighbours all have non-zero green takes blue 0 and its left neighbour's green and keeps its red, whether or not the first rule flooded it. |
| Terrain.StarMakesGreen | planetgen.c:161-167 | An ocean pixel with a star on its left and land on its other sides becomes `(0, 255, 0)`. |
| Terrain.Step | planetgen.c:151-167 | A step changes pixel `p` alone and keeps its red. A pixel flat in blue and green reads no neighbour and the buffer is unchanged. |
| Terrain.SweepTo | planetgen.c:150-168 | After the steps at `p = 0 .. n - 1` every pixel from `n` on, and every pixel flat in blue and green, keeps its value; the length is kept. |
| Terrain.Sweep | planetgen.c:150-168 | A whole pass keeps the first and last scanlines flat, so the next pass reads nothing outside the buffer either. |
| Terrain.Sweeps | planetgen.c:149-169 | Any number of passes keep the length and the flat edges. |
| Terrain.SweepToKeeps | planetgen.c:150-168 | A partial pass keeps every pixel's red and keeps palette pixels in the palette. |
| Terrain.SweepsKeep | planetgen.c:149-169 | Over any number of passes every pixel keeps its red, the first and last scanlines and every pixel flat in blue and green keep their value, and the palette is kept. |
| Terrain.CleanStep | planetgen.c:151-167 | The loop body, written as the program's two `if` blocks, reads a neighbour only for a pixel shaded in green or blue, and gives the same result as `Step`. |
| Terrain.CleanPass | planetgen.c:150-168 | One pass of the loop, `p` from 0 to `size * size - 1`, leaves the buffer equal to `Sweep` of its old contents. |
| Terrain.Cleanup | planetgen.c:149-169 | The two passes leave the buffer equal to two sweeps of its old contents. |
| Terrain.EdgesOffPlanet | planetgen.c:125 | For an odd side, or a radius of at least 1, no cell of the first or last scanline is on the planet. |
| Terrain.EdgeOnPlanet | planetgen.c:125 | With side 10 and radius 0, cell `(9, 5)` of the last scanline is on the planet. |
| Terrain.ClassifiedEdges | planetgen.c:120-147 | For an odd side or a radius of at least 1, the classified first and last scanlines hold only space and stars, which are flat in blue and green. |
| Terrain.GenerateMap | planetgen.c:98-178 | The classified map has flat edges. The buffer ends up classified and cleaned twice. The file written is its bitmap, `Encode(size, size, 0, buffer)`. |
| Terrain.MapPixel | planetgen.c:120-169 | On a zeroed buffer every finished pixel is in the map palette. Every off-planet cell is a star exactly when its draw gives 1, and space otherwise. |
| Clouds.OverPlanet | planetgen.c:207 | A pixel is over the planet when its blue is 128 or its green is neither 0 nor 255. |
| Clouds.Uncloud | planetgen.c:210-220 | Clearing a cloud gives land with green `g - 75` under a blue-220 cloud, ocean under a green-220 one, and otherwise the colour buffer as it stands. |
| Clouds.Cloud | planetgen.c:232-241 | Every cloud has red 220, the mark by which a later pass finds it. |
| Clouds.Cloudy | planetgen.c:226 | A cell is cloudy when the floored mean of its cloud window is a number above the level. |
| Clouds.Brush | planetgen.c:206-244 | A cloudy pixel always ends up a cloud with red 220, left in the colour buffer. A pixel with red other than 220 becomes `Cloud(px)` if cloudy and is otherwise unchanged, with the buffer kept. |
| Clouds.WindowFloor | planetgen.c:226 | The floored mean is a number exactly when the window lies in the grid and the radius is not negative. |
| Clouds.CloudMask | planetgen.c:204-226 | There is one cloud test per pixel of the pass. |
| Clouds.CloudMaskAt | planetgen.c:204-226 | Step `y * size + x` of the pass tests cell `(x, y)`. |
| Clouds.CloudyBounds | planetgen.c:196-226 | Only a cell whose whole window is in the grid can be cloudy. No cell is cloudy when the level is at least the noise maximum. Every in-grid cell is cloudy when the level is negative. |
| Clouds.PaintAt | planetgen.c:205-246 | One loop iteration writes only its own pixel's three bytes. |
| Clouds.Overlaid | planetgen.c:204-248 | The pass keeps the file length. |
| Clouds.OverlaidLater | planetgen.c:204-248 | A pixel the loop has not reached still holds its original value. |
| Clouds.OverlaidEarlier | planetgen.c:204-248 | A pixel the loop has passed is not touched again. |
| Clouds.OverlayPixel | planetgen.c:204-248 | A pixel not over the planet keeps its colour. One over the planet is brushed once, from its original colour and the buffer the earlier pixels left. With red other than 220 it becomes `Cloud` exactly when over the planet and cloudy. |
| Clouds.OverlaidKeeps | planetgen.c:204-248 | A byte outside every pixel's triple is never written. |
| Clouds.OverlayKeepsHeader | planetgen.c:202 | The 54 header bytes are left as they were. |
| Clouds.OverlayKeepsPadding | planetgen.c:248 | The padding bytes after every scanline are left as they were. |
| Clouds.OverlayFreshMap | planetgen.c:204-248 | On the bitmap of a map whose pixels are all in the palette (what `generateMap` writes from a zeroed buffer, `Terrain.MapPixel`), pixel `k` becomes its cloud exactly when it is over the planet and its cell is cloudy. Otherwise it keeps its map colour. |
| Clouds.CloudCleared | planetgen.c:208-222 | A cloud over any palette colour on the planet, except greens 180 and 181, is itself over the planet. A later pass without a cloud there restores the map colour. |
| Clouds.Tint | planetgen.c:212-234 | Clearing undoes the `+ 75` tint modulo 256. The tinted green is 0 or 255 only for greens 180 and 181. |
| Clouds.CloudRedrawn | planetgen.c:208-244 | A later pass that finds the same cell cloudy draws the same cloud again. |
| Clouds.StuckCloud | planetgen.c:206-236 | Land green 180 (maximum 16, elevation 9) gets the cloud `(220, 255, 220)`, which fails the over-planet test. |
| Clouds.PaintPixel | planetgen.c:205-246 | The loop body, with its clear, re-read and draw branches, leaves the file and the buffer equal to `PaintAt` of the old ones. |
| Clouds.PaintRow | planetgen.c:205-246 | The inner loop paints one scanline and leaves the cursor at its padding. |
| Clouds.PaintedIsOverlaid | planetgen.c:204-248 | The nested loops, `y` scanlines and `x` pixels in, have painted what the first `y * size + x` steps of `Overlaid` paint. |
| Clouds.OverlayClouds | planetgen.c:180-255 | The whole pass leaves the file equal to `Overlaid` of its old contents, with the cloud test of the filled cloud field. |

## Left out

- `main`, `srand` and `time` are not part of this model. Every `rand()` value is an input (`raw`, `stars`), so the order in which the program draws them is not modelled. `overlayClouds` fills its grid with `y` outermost, which changes only which draw lands in which cell.
- File handling is not modelled:
  - `fopen` and `fclose`, and the failure of `fopen`, `fread`, `fwrite` and `fseek`;
  - reading past the end of a file.
- The overlay requires a file that holds the whole pixel data.
- The file `generateBitmap` writes is an array it returns. The file name is not modelled.
- `malloc` failure and `free` are not modelled. The over-sized allocation of the `randClouds` row table has no effect and is not modelled.
- The noise grids are `seq<seq<int>>` values that never change after the fill, not `char**`.
- `dpi` is a `float` and `ppm = dpi * 39` a conversion. The model takes `ppm` as an integer; the program always passes `dpi = 0`.
- `pow` and `floor` work on doubles in the program. The model uses exact integer arithmetic: squares for the circle test, and a floored quotient for the mean.
- `generateMap` also computes the average for cells off the planet. When their window leaves the grid, that is `floor` of a NaN converted to `int`, which is undefined behaviour. The model computes the average only on the planet, where it is used.
- Noise.Rng: requires a range of non-zero width, `hi + 1 - lo != 0`. For an empty range `rng` takes a remainder by zero, which is undefined behaviour.
- Noise.NoiseField: requires a noise maximum other than -1, because `rng(0, -1)` takes a remainder by zero.
- Noise.FillNoise: requires a noise maximum other than -1 for the same reason.
- Terrain.GenerateMap: requires a noise maximum other than -1 for the same reason.
- Clouds.OverlayClouds: requires a cloud maximum other than -1 for the same reason.
- Clouds.OverlayFreshMap: requires every pixel of the map to be in the palette. `generateMap` ensures that only from a zeroed buffer. Over an uninitialised buffer a prior red of 220 survives classification, for instance as ocean `(128, 0, 220)`, and the overlay takes such a pixel for a cloud and overwrites it with the colour buffer even where its cell is not cloudy. Clouds.OverlayPixel still describes that case.
- Terrain.ClassifyCell: requires `0 <= grad <= size / 2`. Outside that range an on-planet window can leave the grid and the program converts a NaN.
- Terrain.GenerateMap: requires an odd side or a radius of at least 1 (`ClearEdges`). With radius 0 and an even side the last scanline can hold planet (`Terrain.EdgeOnPlanet`), and the cleanup steps of its shaded pixels read past the end of the pixel buffer, which is undefined behaviour. Otherwise the first and last scanlines hold only space and stars, whose steps read no neighbour, and the cleanup loop is modelled over all of `p = 0 .. size*size - 1`.
- Terrain.MapPixel: requires `ClearEdges` for the same reason.
- Terrain.CleanPass: requires `EdgesFlat`, the first and last scanlines flat in blue and green, which is exactly what keeps every step's reads inside the buffer.
- Terrain.Cleanup: requires `EdgesFlat` for the same reason.
- Integer overflow of `int` size arithmetic for very large images is not modelled. The 32-bit truncation of header fields is modelled.
- Signed `char` stores of values outside its range are modelled as reduction modulo 256. So are `uint8_t` stores.
- The overlay writes a pixel with `fwrite` and then reads the next with `fread` with no `fseek` or `fflush` in between, which the C standard (section 7.21.5.3 of ISO/IEC 9899:2011) leaves undefined. The model treats the file as a plain array of bytes.
- The headers are written as the raw memory of the two structs. The model's little-endian, gap-free byte layout assumes a little-endian host and packed structs (`#pragma pack(1)`).
- The contents of the uninitialised pixel buffer and colour buffer are inputs: `old(im[..])` and `colors0`.
