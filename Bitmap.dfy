/** `generateBitmap`: a packed little-endian BITMAPFILEHEADER and BITMAPINFOHEADER
    for an uncompressed 24-bit image, then the pixel triples row by row, each
    scanline followed by `width % 4` zero bytes. */
module Bitmap {
  import opened Types

  const FileHeaderSize := 14
  const InfoHeaderSize := 40
  /** Where the pixel data begins: both headers, packed. */
  const HeaderSize := 54
  const TwoTo32 := 0x1_0000_0000

  /** A `uint16_t` field: the value modulo 2^16, little-endian. */
  function LE16(v: int): (s: seq<byte>)
    ensures |s| == 2
  {
    var u := v % 0x1_0000;
    [u % 0x100, u / 0x100]
  }

  /** A `uint32_t` or `int32_t` field: the value modulo 2^32 (two's complement for a
      negative value), little-endian. */
  function LE32(v: int): (s: seq<byte>)
    ensures |s| == 4
  {
    var u := v % TwoTo32;
    [u % 0x100, (u / 0x100) % 0x100, (u / 0x100 / 0x100) % 0x100, u / 0x100 / 0x100 / 0x100]
  }

  /** Reading back the fields a decoder sees. */
  function U16At(s: seq<byte>, o: nat): int
    requires o + 2 <= |s|
  {
    s[o] as int + 0x100 * (s[o + 1] as int)
  }

  function U32At(s: seq<byte>, o: nat): int
    requires o + 4 <= |s|
  {
    s[o] as int + 0x100 * (s[o + 1] as int) + 0x1_0000 * (s[o + 2] as int) + 0x100_0000 * (s[o + 3] as int)
  }

  function I32At(s: seq<byte>, o: nat): int
    requires o + 4 <= |s|
  {
    var u := U32At(s, o);
    if u < 0x8000_0000 then u else u - TwoTo32
  }

  lemma LE16RoundTrip(v: int)
    ensures U16At(LE16(v), 0) == v % 0x1_0000
  {
  }

  /** A 32-bit field reads back as its value modulo 2^32, and a value in `int32_t`
      range reads back exactly as a signed field. */
  lemma LE32RoundTrip(v: int)
    ensures U32At(LE32(v), 0) == v % TwoTo32
    ensures -0x8000_0000 <= v < 0x8000_0000 ==> I32At(LE32(v), 0) == v
  {
    var u := v % TwoTo32;
    var q1 := u / 0x100;
    var q2 := q1 / 0x100;
    var q3 := q2 / 0x100;
    assert u == u % 0x100 + 0x100 * q1;
    assert q1 == q1 % 0x100 + 0x100 * q2;
    assert q2 == q2 % 0x100 + 0x100 * q3;
    assert q3 < 0x100;
  }

  /** What `generateBitmap` computes for the size field (it counts 2 padding bytes
      per row), before its conversion to `uint32_t`. */
  function FileSize(w: int, h: int): int
  {
    FileHeaderSize + InfoHeaderSize + 3 * w * h + h * 2
  }

  /** What it computes for the image size field: the triples alone, no padding. */
  function ImageSize(w: int, h: int): int
  {
    3 * h * w
  }

  /** BITMAPFILEHEADER as `generateBitmap` fills it: "BM", the file size, two
      reserved zeros, the offset 54. */
  function FileHeader(size: int): (s: seq<byte>)
    ensures |s| == FileHeaderSize
  {
    LE16(0x4D42) + (LE32(size) + (LE16(0) + (LE16(0) + LE32(FileHeaderSize + InfoHeaderSize))))
  }

  /** BITMAPINFOHEADER: its own size, width, height, 1 plane, 24 bits per pixel, no
      compression, the image size, the resolution twice, no palette. */
  function InfoHeader(w: int, h: int, imageSize: int, ppm: int): (s: seq<byte>)
    ensures |s| == InfoHeaderSize
  {
    LE32(InfoHeaderSize) + (LE32(w) + (LE32(h) + (LE16(1) + (LE16(8 * 3) + (LE32(0) + (LE32(imageSize)
      + (LE32(ppm) + (LE32(ppm) + (LE32(0) + LE32(0))))))))))
  }

  function Header(w: int, h: int, ppm: int): (s: seq<byte>)
    ensures |s| == HeaderSize
  {
    FileHeader(FileSize(w, h)) + InfoHeader(w, h, ImageSize(w, h), ppm)
  }

  /** The bytes of one scanline: `w` triples and `w % 4` padding bytes. */
  function Stride(w: int): int
  {
    3 * w + w % 4
  }

  function Triple(p: Pixel): seq<byte>
  {
    [p.b, p.g, p.r]
  }

  function Zeros(n: nat): seq<byte>
  {
    seq(n, _ => 0)
  }

  /** What the pixel loop has written after its first `n` iterations: each pixel's
      triple, and after every `w`-th pixel `w % 4` zero bytes. */
  function Emitted(pixels: seq<Pixel>, w: int, n: nat): seq<byte>
    requires n <= |pixels| && (w > 0 || n == 0)
  {
    if n == 0 then []
    else Emitted(pixels, w, n - 1) + Triple(pixels[n - 1]) + (if n % w == 0 then Zeros(w % 4) else [])
  }

  /** The whole file `generateBitmap` writes for a `w`-by-`h` image. */
  function Encode(w: int, h: int, ppm: int, pixels: seq<Pixel>): (file: seq<byte>)
    requires 0 <= w && 0 <= h && |pixels| == w * h
    ensures HeaderSize <= |file| == HeaderSize + h * Stride(w)
  {
    BodyLength(pixels, w, h);
    Header(w, h, ppm) + Emitted(pixels, w, w * h)
  }

  /** The pixel data of a `w`-by-`h` image is `h` whole scanlines. */
  lemma BodyLength(pixels: seq<Pixel>, w: int, h: int)
    requires 0 <= w && 0 <= h && |pixels| == w * h
    ensures |Emitted(pixels, w, w * h)| == h * Stride(w)
  {
    if w > 0 {
      EmittedLength(pixels, w, w * h);
      DivModOf(w, w * h, h, 0);
    }
  }

  /** Where pixel `i`'s triple begins: past the headers, `i / w` whole scanlines and
      `i % w` triples. */
  function PixelOffset(w: int, i: int): (o: int)
    requires w > 0 && i >= 0
    ensures o >= HeaderSize
  {
    MulMonotone(0, i / w, Stride(w));
    HeaderSize + (i / w) * Stride(w) + 3 * (i % w)
  }

  /** The pixel stored at byte offset `o`. */
  function ReadPixel(s: seq<byte>, o: int): Pixel
    requires 0 <= o && o + 3 <= |s|
  {
    Pixel(s[o], s[o + 1], s[o + 2])
  }

  /** The file after writing `px` at offset `o`. The pixel reads back as written,
      every other byte is kept, and writing back the pixel just read changes nothing. */
  function Store(s: seq<byte>, o: int, px: Pixel): (r: seq<byte>)
    requires 0 <= o && o + 3 <= |s|
    ensures |r| == |s| && ReadPixel(r, o) == px
    ensures forall j :: 0 <= j < |s| && (j < o || o + 3 <= j) ==> r[j] == s[j]
    ensures px == ReadPixel(s, o) ==> r == s
  {
    s[o := px.b][o + 1 := px.g][o + 2 := px.r]
  }

  /** After `n` pixels the loop has written `n / w` whole scanlines and `n % w`
      triples of the next. */
  lemma EmittedLength(pixels: seq<Pixel>, w: int, n: nat)
    requires n <= |pixels| && w > 0
    ensures |Emitted(pixels, w, n)| == (n / w) * Stride(w) + 3 * (n % w)
  {
    EmittedRows(pixels, w, n, n / w, n % w);
  }

  /** The same, for `n` written as `q` whole scanlines and `r` more pixels. */
  lemma {:induction false} EmittedRows(pixels: seq<Pixel>, w: int, n: nat, q: int, r: int)
    requires n <= |pixels| && 0 <= r < w && n == q * w + r
    ensures |Emitted(pixels, w, n)| == q * Stride(w) + 3 * r
  {
    if n == 0 {
      DivModOf(w, n, q, r);
    } else {
      DivModOf(w, n, q, r);
      if r > 0 {
        EmittedRows(pixels, w, n - 1, q, r - 1);
      } else {
        MulSucc(q - 1, w);
        EmittedRows(pixels, w, n - 1, q - 1, w - 1);
        MulSucc(q - 1, Stride(w));
      }
    }
  }

  /** The loop only ever appends. */
  lemma {:induction false} EmittedPrefix(pixels: seq<Pixel>, w: int, n: nat, m: nat)
    requires n <= m <= |pixels| && w > 0
    ensures |Emitted(pixels, w, n)| <= |Emitted(pixels, w, m)|
    ensures Emitted(pixels, w, n) == Emitted(pixels, w, m)[..|Emitted(pixels, w, n)|]
  {
    if n < m {
      EmittedPrefix(pixels, w, n, m - 1);
    }
  }

  /** Each scanline is `3w` pixel bytes and `w % 4` padding bytes, which always
      adds up to a multiple of 4 (the standard padding `(4 - 3w % 4) % 4` is the same
      number). */
  lemma StrideAligned(w: nat)
    ensures Stride(w) % 4 == 0
    ensures w % 4 == (4 - (3 * w) % 4) % 4
  {
    var q, r := w / 4, w % 4;
    assert w == 4 * q + r;
    assert Stride(w) == 4 * (3 * q + r);
    assert 3 * w == 4 * (3 * q) + 3 * r;
  }

  /** The first 14 bytes of the file carry the file header's fields, as a reader
      of the packed little-endian layout decodes them. */
  lemma EncodeFileHeader(w: int, h: int, ppm: int, pixels: seq<Pixel>)
    requires 0 <= w && 0 <= h && |pixels| == w * h
    ensures var f := Encode(w, h, ppm, pixels);
      f[0] == 0x42 && f[1] == 0x4D &&
      U32At(f, 2) == (HeaderSize + 3 * w * h + 2 * h) % TwoTo32 &&
      U16At(f, 6) == 0 && U16At(f, 8) == 0 &&
      U32At(f, 10) == HeaderSize
  {
    var fh, ih := FileHeader(FileSize(w, h)), InfoHeader(w, h, ImageSize(w, h), ppm);
    FileHeaderFields(FileSize(w, h));
    ReadsPrefix(fh + ih, Emitted(pixels, w, w * h));
    ReadsPrefix(fh, ih);
  }

  /** The next 40 bytes carry the info header's fields: the image is `w` by `h`,
      24 bits per pixel, uncompressed, `3hw` bytes, at `ppm` pixels per metre. */
  lemma EncodeInfoHeader(w: int, h: int, ppm: int, pixels: seq<Pixel>)
    requires 0 <= w && 0 <= h && |pixels| == w * h
    requires w < 0x8000_0000 && h < 0x8000_0000 && -0x8000_0000 <= ppm < 0x8000_0000
    ensures var f := Encode(w, h, ppm, pixels);
      U32At(f, 14) == InfoHeaderSize &&
      I32At(f, 18) == w && I32At(f, 22) == h &&
      U16At(f, 26) == 1 && U16At(f, 28) == 24 &&
      U32At(f, 30) == 0 &&
      U32At(f, 34) == (3 * h * w) % TwoTo32 &&
      I32At(f, 38) == ppm && I32At(f, 42) == ppm &&
      U32At(f, 46) == 0 && U32At(f, 50) == 0
  {
    var fh, ih := FileHeader(FileSize(w, h)), InfoHeader(w, h, ImageSize(w, h), ppm);
    InfoHeaderFields(w, h, ImageSize(w, h), ppm);
    ReadsPrefix(fh + ih, Emitted(pixels, w, w * h));
    ReadsSuffix(fh, ih);
  }

  /** Fields inside `s` read the same in `s + t`. */
  lemma ReadsPrefix(s: seq<byte>, t: seq<byte>)
    ensures forall o :: 0 <= o < |s| ==> (s + t)[o] == s[o]
    ensures forall o: nat :: o + 2 <= |s| ==> U16At(s + t, o) == U16At(s, o)
    ensures forall o: nat :: o + 4 <= |s| ==> U32At(s + t, o) == U32At(s, o) && I32At(s + t, o) == I32At(s, o)
  {
  }

  /** Fields inside `t` read the same in `s + t`, shifted by `|s|`. */
  lemma ReadsSuffix(s: seq<byte>, t: seq<byte>)
    ensures forall o: nat :: o + 2 <= |t| ==> U16At(s + t, |s| + o) == U16At(t, o)
    ensures forall o: nat :: o + 4 <= |t| ==> U32At(s + t, |s| + o) == U32At(t, o) && I32At(s + t, |s| + o) == I32At(t, o)
  {
    forall o: nat | o + 4 <= |t|
      ensures U32At(s + t, |s| + o) == U32At(t, o)
    {
      assert (s + t)[|s| + o + 1] == t[o + 1] && (s + t)[|s| + o + 2] == t[o + 2];
    }
  }

  /** The fields of the 14-byte file header. */
  lemma FileHeaderFields(size: int)
    ensures var fh := FileHeader(size);
      fh[0] == 0x42 && fh[1] == 0x4D &&
      U32At(fh, 2) == size % TwoTo32 &&
      U16At(fh, 6) == 0 && U16At(fh, 8) == 0 &&
      U32At(fh, 10) == HeaderSize
  {
    var fh := FileHeader(size);
    Read32(fh, 2, size);
    Read16(fh, 6, 0);
    Read16(fh, 8, 0);
    Read32(fh, 10, FileHeaderSize + InfoHeaderSize);
  }

  /** The fields of the 40-byte info header, at offsets relative to its start. */
  lemma InfoHeaderFields(w: int, h: int, imageSize: int, ppm: int)
    requires -0x8000_0000 <= w < 0x8000_0000 && -0x8000_0000 <= h < 0x8000_0000
    requires -0x8000_0000 <= ppm < 0x8000_0000
    ensures var ih := InfoHeader(w, h, imageSize, ppm);
      U32At(ih, 0) == InfoHeaderSize &&
      I32At(ih, 4) == w && I32At(ih, 8) == h &&
      U16At(ih, 12) == 1 && U16At(ih, 14) == 24 &&
      U32At(ih, 16) == 0 &&
      U32At(ih, 20) == imageSize % TwoTo32 &&
      I32At(ih, 24) == ppm && I32At(ih, 28) == ppm &&
      U32At(ih, 32) == 0 && U32At(ih, 36) == 0
  {
    InfoDimensions(w, h, imageSize, ppm);
    InfoFormat(w, h, imageSize, ppm);
    InfoResolution(w, h, imageSize, ppm);
  }

  /** The header size, width and height. */
  lemma InfoDimensions(w: int, h: int, imageSize: int, ppm: int)
    requires -0x8000_0000 <= w < 0x8000_0000 && -0x8000_0000 <= h < 0x8000_0000
    ensures var ih := InfoHeader(w, h, imageSize, ppm);
      U32At(ih, 0) == InfoHeaderSize && I32At(ih, 4) == w && I32At(ih, 8) == h
  {
    var ih := InfoHeader(w, h, imageSize, ppm);
    Read32(ih, 0, InfoHeaderSize);
    Read32(ih, 4, w);
    Read32(ih, 8, h);
  }

  /** The planes, bit count, compression and image size. */
  lemma InfoFormat(w: int, h: int, imageSize: int, ppm: int)
    ensures var ih := InfoHeader(w, h, imageSize, ppm);
      U16At(ih, 12) == 1 && U16At(ih, 14) == 24 && U32At(ih, 16) == 0 &&
      U32At(ih, 20) == imageSize % TwoTo32
  {
    var ih := InfoHeader(w, h, imageSize, ppm);
    Read16(ih, 12, 1);
    Read16(ih, 14, 24);
    Read32(ih, 16, 0);
    Read32(ih, 20, imageSize);
  }

  /** The two resolutions and the empty palette counts. */
  lemma InfoResolution(w: int, h: int, imageSize: int, ppm: int)
    requires -0x8000_0000 <= ppm < 0x8000_0000
    ensures var ih := InfoHeader(w, h, imageSize, ppm);
      I32At(ih, 24) == ppm && I32At(ih, 28) == ppm && U32At(ih, 32) == 0 && U32At(ih, 36) == 0
  {
    var ih := InfoHeader(w, h, imageSize, ppm);
    Read32(ih, 24, ppm);
    Read32(ih, 28, ppm);
    Read32(ih, 32, 0);
    Read32(ih, 36, 0);
  }

  /** A 32-bit field whose bytes sit at `o` reads back as its value. */
  lemma Read32(s: seq<byte>, o: nat, v: int)
    requires o + 4 <= |s|
    requires s[o] == LE32(v)[0] && s[o + 1] == LE32(v)[1] && s[o + 2] == LE32(v)[2] && s[o + 3] == LE32(v)[3]
    ensures U32At(s, o) == v % TwoTo32
    ensures -0x8000_0000 <= v < 0x8000_0000 ==> I32At(s, o) == v
  {
    LE32RoundTrip(v);
  }

  /** A 16-bit field whose bytes sit at `o` reads back as its value. */
  lemma Read16(s: seq<byte>, o: nat, v: int)
    requires o + 2 <= |s|
    requires s[o] == LE16(v)[0] && s[o + 1] == LE16(v)[1]
    ensures U16At(s, o) == v % 0x1_0000
  {
    LE16RoundTrip(v);
  }

  /** The size field holds `54 + 3wh + 2h`, truncated to 32 bits. */
  lemma SizeField(w: int, h: int, ppm: int, pixels: seq<Pixel>)
    requires 0 <= w && 0 <= h && |pixels| == w * h
    ensures U32At(Encode(w, h, ppm, pixels), 2) == (HeaderSize + 3 * w * h + 2 * h) % TwoTo32
  {
    Read32(Encode(w, h, ppm, pixels), 2, FileSize(w, h));
  }

  /** Decoding pixel `i` from its offset in the file returns `pixels[i]`. */
  lemma EncodePixel(w: int, h: int, ppm: int, pixels: seq<Pixel>, i: int)
    requires 0 <= w && 0 <= h && |pixels| == w * h && 0 <= i < w * h
    ensures w > 0
    ensures PixelOffset(w, i) + 3 <= |Encode(w, h, ppm, pixels)|
    ensures ReadPixel(Encode(w, h, ppm, pixels), PixelOffset(w, i)) == pixels[i]
  {
    var o := PixelTriple(pixels, w, i);
    EmittedAt(pixels, w, i + 1, w * h, o);
    EmittedAt(pixels, w, i + 1, w * h, o + 1);
    EmittedAt(pixels, w, i + 1, w * h, o + 2);
    EncodeBody(w, h, ppm, pixels, o);
    EncodeBody(w, h, ppm, pixels, o + 1);
    EncodeBody(w, h, ppm, pixels, o + 2);
  }

  /** Pixel `i`'s triple is written at offset `PixelOffset(w, i) - HeaderSize` of
      the pixel data, by iteration `i` of the loop. */
  lemma PixelTriple(pixels: seq<Pixel>, w: int, i: nat) returns (o: int)
    requires w > 0 && i < |pixels|
    ensures o == PixelOffset(w, i) - HeaderSize
    ensures o + 3 <= |Emitted(pixels, w, i + 1)|
    ensures Emitted(pixels, w, i + 1)[o] == pixels[i].b
    ensures Emitted(pixels, w, i + 1)[o + 1] == pixels[i].g
    ensures Emitted(pixels, w, i + 1)[o + 2] == pixels[i].r
  {
    EmittedLength(pixels, w, i);
    o := |Emitted(pixels, w, i)|;
    var pad := if (i + 1) % w == 0 then Zeros(w % 4) else [];
    assert Emitted(pixels, w, i + 1) == Emitted(pixels, w, i) + Triple(pixels[i]) + pad;
  }

  /** The `k`-th padding byte after scanline `y` is zero. */
  lemma EncodePadding(w: int, h: int, ppm: int, pixels: seq<Pixel>, y: int, k: int)
    requires 0 <= w && 0 <= h && |pixels| == w * h && 0 <= y < h && 0 <= k < w % 4
    ensures HeaderSize <= HeaderSize + y * Stride(w) + 3 * w + k < |Encode(w, h, ppm, pixels)|
    ensures Encode(w, h, ppm, pixels)[HeaderSize + y * Stride(w) + 3 * w + k] == 0
  {
    var j := PaddingAt(pixels, w, h, y, k);
    EncodeBody(w, h, ppm, pixels, j);
  }

  /** The same padding byte, as an offset into the whole pixel data. */
  lemma PaddingAt(pixels: seq<Pixel>, w: int, h: int, y: int, k: int) returns (j: int)
    requires 0 <= w && 0 <= h && |pixels| == w * h && 0 <= y < h && 0 <= k < w % 4
    ensures j == y * Stride(w) + 3 * w + k
    ensures 0 <= j < |Emitted(pixels, w, w * h)| && Emitted(pixels, w, w * h)[j] == 0
  {
    var n := (y + 1) * w;
    MulMonotone(y + 1, h, w);
    j := ScanlineEnd(pixels, w, y, k);
    EmittedAt(pixels, w, n, w * h, j);
  }

  /** Byte `j` of the pixel data is byte `HeaderSize + j` of the file. */
  lemma EncodeBody(w: int, h: int, ppm: int, pixels: seq<Pixel>, j: int)
    requires 0 <= w && 0 <= h && |pixels| == w * h && 0 <= j < |Emitted(pixels, w, w * h)|
    ensures HeaderSize + j < |Encode(w, h, ppm, pixels)|
    ensures Encode(w, h, ppm, pixels)[HeaderSize + j] == Emitted(pixels, w, w * h)[j]
  {
  }

  /** Later iterations leave the bytes already written alone. */
  lemma EmittedAt(pixels: seq<Pixel>, w: int, n: nat, m: nat, j: int)
    requires n <= m <= |pixels| && w > 0 && 0 <= j < |Emitted(pixels, w, n)|
    ensures j < |Emitted(pixels, w, m)| && Emitted(pixels, w, m)[j] == Emitted(pixels, w, n)[j]
  {
    EmittedPrefix(pixels, w, n, m);
  }

  /** Once scanline `y` is complete, its `k`-th padding byte sits at offset
      `j = y * Stride(w) + 3 * w + k` of the pixel data and is zero. */
  lemma ScanlineEnd(pixels: seq<Pixel>, w: int, y: int, k: int) returns (j: int)
    requires w > 0 && 0 <= y && (y + 1) * w <= |pixels| && 0 <= k < w % 4
    ensures j == y * Stride(w) + 3 * w + k
    ensures 0 <= j < |Emitted(pixels, w, (y + 1) * w)|
    ensures Emitted(pixels, w, (y + 1) * w)[j] == 0
  {
    var n := (y + 1) * w;
    var s := Stride(w);
    DivModOf(w, n, y + 1, 0);
    EmittedLength(pixels, w, n);
    assert |Emitted(pixels, w, n)| == (y + 1) * s;
    MulSucc(y, s);
    j := y * s + 3 * w + k;
    ScanlineTail(pixels, w, n, j);
  }

  /** The last `w % 4` bytes written after a scanline's last pixel are zero. */
  lemma ScanlineTail(pixels: seq<Pixel>, w: int, n: nat, j: int)
    requires w > 0 && 0 < n <= |pixels| && n % w == 0
    requires |Emitted(pixels, w, n)| - w % 4 <= j < |Emitted(pixels, w, n)|
    ensures Emitted(pixels, w, n)[j] == 0
  {
    var row := Emitted(pixels, w, n);
    var before := Emitted(pixels, w, n - 1) + Triple(pixels[n - 1]);
    assert row == before + Zeros(w % 4);
  }

  /** The file is 54 bytes plus `h` scanlines; the size field says so exactly when
      `w % 4 == 2` (or the image is empty), as it assumes 2 padding bytes per row. */
  lemma EncodeSize(w: int, h: int, ppm: int, pixels: seq<Pixel>)
    requires 0 <= w && 0 <= h && |pixels| == w * h
    requires HeaderSize + 3 * w * h + 2 * h < TwoTo32
    ensures |Encode(w, h, ppm, pixels)| == HeaderSize + h * (3 * w + w % 4)
    ensures U32At(Encode(w, h, ppm, pixels), 2) == |Encode(w, h, ppm, pixels)| <==> h == 0 || w % 4 == 2
  {
    var t := 3 * w;
    assert 0 <= t * h by {
      MulMonotone(0, t, h);
    }
    SizeField(w, h, ppm, pixels);
    ModSmall(HeaderSize + t * h + 2 * h);
    SizeMatch(h, t, w % 4);
  }

  lemma ModSmall(x: int)
    requires 0 <= x < TwoTo32
    ensures x % TwoTo32 == x
  {
  }

  /** `t*h + 2*h` equals `h*(t + p)` only for no rows or `p == 2`. */
  lemma SizeMatch(h: int, t: int, p: int)
    requires h >= 0
    ensures t * h + 2 * h == h * (t + p) <==> h == 0 || p == 2
  {
    assert h * (t + p) == t * h + h * p;
    if h > 0 && h * p == h * 2 {
      MulCancel(h, p, 2);
    }
  }

  /** `generateBitmap`, writing into a file of the length it ends up with: the
      headers, then each pixel's triple and the padding after each scanline. */
  method GenerateBitmap(w: int, h: int, ppm: int, pixels: array<Pixel>) returns (file: array<byte>)
    requires 0 <= w && 0 <= h && w * h <= pixels.Length
    ensures file[..] == Encode(w, h, ppm, pixels[..w * h])
  {
    var total := w * h;
    ghost var px := pixels[..total];
    BodyLength(px, w, h);
    ghost var body := Emitted(px, w, total);
    var size := HeaderSize + h * Stride(w);
    assert size == HeaderSize + |body|;
    var hd := Header(w, h, ppm);
    file := new byte[size];
    CopyHeader(file, hd);
    WritePixels(file, HeaderSize, pixels, w, total);
    assert file[..] == file[..HeaderSize + |body|];
  }

  /** The pixel loop of `generateBitmap`: from `start` on, each of the first `n`
      pixels' triple, and after every `w`-th pixel `w % 4` zero bytes. */
  method WritePixels(file: array<byte>, start: nat, pixels: array<Pixel>, w: int, n: nat)
    requires n <= pixels.Length && (w > 0 || n == 0)
    requires start + |Emitted(pixels[..n], w, n)| <= file.Length
    modifies file
    ensures file[..start + |Emitted(pixels[..n], w, n)|] == old(file[..start]) + Emitted(pixels[..n], w, n)
    ensures file[start + |Emitted(pixels[..n], w, n)|..] == old(file[start + |Emitted(pixels[..n], w, n)|..])
  {
    ghost var px := pixels[..n];
    ghost var before := file[..start];
    ghost var end := start + |Emitted(px, w, n)|;
    var pos := start;
    var i := 0;
    while i < n
      invariant 0 <= i <= n
      invariant pos == start + |Emitted(px, w, i)| <= file.Length
      invariant file[..pos] == before + Emitted(px, w, i)
      invariant file[end..] == old(file[end..])
    {
      var pad := if (i + 1) % w == 0 then w % 4 else 0;
      EmittedGrows(px, w, i, n);
      ghost var done := file[..pos];
      WritePixel(file, pos, pixels[i], pad);
      EmittedStep(px, w, i, before, done, file[..pos + 3 + pad]);
      pos := pos + 3 + pad;
      i := i + 1;
    }
  }

  /** Pixel `i` adds its triple and, at the end of a scanline, the padding, and the
      loop ends up writing at least that much. */
  lemma EmittedGrows(px: seq<Pixel>, w: int, i: nat, n: nat)
    requires i < n <= |px| && w > 0
    ensures |Emitted(px, w, i + 1)| == |Emitted(px, w, i)| + 3 + (if (i + 1) % w == 0 then w % 4 else 0)
    ensures |Emitted(px, w, i + 1)| <= |Emitted(px, w, n)|
  {
    EmittedPrefix(px, w, i + 1, n);
  }

  /** One iteration of the pixel loop extends what it has written by the next
      pixel's triple and, at the end of a scanline, its padding. */
  lemma EmittedStep(px: seq<Pixel>, w: int, i: nat, before: seq<byte>, done: seq<byte>, after: seq<byte>)
    requires i < |px| && w > 0
    requires done == before + Emitted(px, w, i)
    requires after == done + Triple(px[i]) + Zeros(if (i + 1) % w == 0 then w % 4 else 0)
    ensures after == before + Emitted(px, w, i + 1)
  {
  }

  /** One pass of the loop body: the pixel's triple at `pos`, then `pad` zero bytes. */
  method WritePixel(file: array<byte>, pos: nat, p: Pixel, pad: nat)
    requires pos + 3 + pad <= file.Length
    modifies file
    ensures file[..pos + 3 + pad] == old(file[..pos]) + Triple(p) + Zeros(pad)
    ensures file[pos + 3 + pad..] == old(file[pos + 3 + pad..])
  {
    WriteTriple(file, pos, p);
    WriteZeros(file, pos + 3, pad);
  }

  /** The `fwrite` of one pixel's three bytes at `pos`. */
  method WriteTriple(file: array<byte>, pos: nat, p: Pixel)
    requires pos + 3 <= file.Length
    modifies file
    ensures file[..] == Store(old(file[..]), pos, p)
    ensures file[..pos + 3] == old(file[..pos]) + Triple(p)
    ensures file[pos + 3..] == old(file[pos + 3..])
  {
    file[pos], file[pos + 1], file[pos + 2] := p.b, p.g, p.r;
  }

  /** The `fwrite` of `n` zero bytes of scanline padding at `pos`. */
  method WriteZeros(file: array<byte>, pos: nat, n: nat)
    requires pos + n <= file.Length
    modifies file
    ensures file[..pos + n] == old(file[..pos]) + Zeros(n)
    ensures file[pos + n..] == old(file[pos + n..])
  {
    var k := 0;
    while k < n
      invariant 0 <= k <= n
      invariant file[..pos + k] == old(file[..pos]) + Zeros(k)
      invariant file[pos + n..] == old(file[pos + n..])
    {
      file[pos + k] := 0;
      assert Zeros(k + 1) == Zeros(k) + [0];
      k := k + 1;
    }
  }

  /** The `fwrite` of the two headers at the start of the file. */
  method CopyHeader(file: array<byte>, hd: seq<byte>)
    requires |hd| <= file.Length
    modifies file
    ensures file[..|hd|] == hd
    ensures file[|hd|..] == old(file[|hd|..])
  {
    forall k | 0 <= k < |hd| {
      file[k] := hd[k];
    }
  }
}
