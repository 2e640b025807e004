/**
 * The favicon generator: a 32 by 32 RGBA picture of two block letters on a yellow
 * rounded square, encoded as a PNG and wrapped in a one-image ICO file.
 *
 * Compression is a parameter (`deflate`): the model says which bytes are compressed,
 * not how. Writing the file is left to the caller.
 */
module Favicon {
  import opened Wrappers
  import opened Bytes
  import Crc
  import Png
  import Raster
  import Ico

  const W: nat := 32
  const H: nat := 32

  /** The three colours, as RGBA bytes: yellow, opaque black, and fully transparent. */
  const Bg: seq<Byte> := [0xFA, 0xCC, 0x15, 0xFF]
  const Fg: seq<Byte> := [0x00, 0x00, 0x00, 0xFF]
  const Tr: seq<Byte> := [0x00, 0x00, 0x00, 0x00]

  /** The two glyphs, six rows of four cells, 1 where the cell is drawn: an "L" and an "H". */
  const LGlyph: seq<seq<int>> := [
    [1, 0, 0, 0],
    [1, 0, 0, 0],
    [1, 0, 0, 0],
    [1, 0, 0, 0],
    [1, 0, 0, 0],
    [1, 1, 1, 1]]
  const HGlyph: seq<seq<int>> := [
    [1, 0, 0, 1],
    [1, 0, 0, 1],
    [1, 1, 1, 1],
    [1, 0, 0, 1],
    [1, 0, 0, 1],
    [1, 0, 0, 1]]

  const GlyphCols: int := 4
  const GlyphRows: int := 6
  /** Each glyph cell is a `Scale` by `Scale` block of pixels. */
  const Scale: int := 3
  /** Pixels between the two glyphs. */
  const Gap: int := 2

  const LetterW: int := 2 * GlyphCols * Scale + Gap
  const LetterH: int := GlyphRows * Scale
  /** `Math.floor((W - LETTER_W) / 2)`: the operand is not negative, so floor is `/`. */
  const PadX: int := (W - LetterW) / 2
  const PadY: int := (H - LetterH) / 2
  const Radius: int := 7

  /** The letter area is 26 by 18 pixels and sits centred, 3 pixels in from each side and 7 from the top and the bottom. */
  lemma LetterArea()
    ensures LetterW == 26 && LetterH == 18 && PadX == 3 && PadY == 7
    ensures PadX + LetterW + PadX == W && PadY + LetterH + PadY == H
  {
  }

  function Max(a: int, b: int): int {
    if a < b then b else a
  }

  function Min(a: int, b: int): int {
    if a < b then a else b
  }

  /** `v` clamped to the band `[r, n - 1 - r]` (the nearest point of the inner square). */
  function Clamp(v: int, r: int, n: int): int {
    Max(r, Min(n - 1 - r, v))
  }

  /**
   * `insideRoundedRect(x, y, r)`: the pixel is within distance `r` of the square
   * `[r, W - 1 - r] x [r, H - 1 - r]`, measured from its nearest point.
   */
  predicate InsideRoundedRect(x: int, y: int, r: int) {
    var nx := Clamp(x, r, W);
    var ny := Clamp(y, r, H);
    (x - nx) * (x - nx) + (y - ny) * (y - ny) <= r * r
  }

  /** Every pixel of the inner square is inside, whatever the radius. */
  lemma InnerSquareInside(x: int, y: int, r: int)
    requires r <= x <= W - 1 - r && r <= y <= H - 1 - r
    ensures InsideRoundedRect(x, y, r)
  {
  }

  /** With the radius used, the four corner pixels are cut off and the edge midpoints are kept. */
  lemma CornersCut()
    ensures !InsideRoundedRect(0, 0, Radius) && !InsideRoundedRect(W - 1, 0, Radius)
    ensures !InsideRoundedRect(0, H - 1, Radius) && !InsideRoundedRect(W - 1, H - 1, Radius)
    ensures InsideRoundedRect(0, H / 2, Radius) && InsideRoundedRect(W / 2, 0, Radius)
  {
  }

  /** The shape is symmetric under left-right and top-bottom reflection. */
  lemma RoundedRectSymmetric(x: int, y: int, r: int)
    requires 0 <= r && 2 * r <= W - 1
    ensures InsideRoundedRect(x, y, r) == InsideRoundedRect(W - 1 - x, y, r)
    ensures InsideRoundedRect(x, y, r) == InsideRoundedRect(x, H - 1 - y, r)
  {
    assert Clamp(W - 1 - x, r, W) == W - 1 - Clamp(x, r, W);
    assert Clamp(H - 1 - y, r, H) == H - 1 - Clamp(y, r, H);
    var dx, dy := x - Clamp(x, r, W), y - Clamp(y, r, H);
    assert (W - 1 - x) - Clamp(W - 1 - x, r, W) == -dx;
    assert (H - 1 - y) - Clamp(H - 1 - y, r, H) == -dy;
    assert (-dx) * (-dx) == dx * dx;
    assert (-dy) * (-dy) == dy * dy;
  }

  /**
   * `isGlyph(x, y)`: the glyph cell under the pixel is drawn. `Math.floor` of a division
   * by 3 is Dafny's `/`, which rounds toward negative infinity for a positive divisor.
   */
  predicate IsGlyph(x: int, y: int) {
    var row := (y - PadY) / Scale;
    if row < 0 || row >= GlyphRows then false
    else
      var lx := x - PadX;
      if lx >= 0 && lx < GlyphCols * Scale then LGlyph[row][lx / Scale] == 1
      else
        var hx := x - (PadX + GlyphCols * Scale + Gap);
        if hx >= 0 && hx < GlyphCols * Scale then HGlyph[row][hx / Scale] == 1
        else false
  }

  /**
   * Each glyph cell becomes a 3 by 3 block: the pixels of the block for cell `(row, col)`
   * are drawn exactly when the cell is, for the first glyph from column 3 and for the
   * second from column 17.
   */
  lemma GlyphBlocks(row: int, col: int, i: int, j: int)
    requires 0 <= row < GlyphRows && 0 <= col < GlyphCols && 0 <= i < Scale && 0 <= j < Scale
    ensures IsGlyph(PadX + col * Scale + i, PadY + row * Scale + j) <==> LGlyph[row][col] == 1
    ensures IsGlyph(PadX + GlyphCols * Scale + Gap + col * Scale + i, PadY + row * Scale + j) <==> HGlyph[row][col] == 1
  {
    assert (row * Scale + j) / Scale == row;
    assert (col * Scale + i) / Scale == col;
  }

  /** Drawn pixels lie in the letter area and never in the gap between the glyphs. */
  lemma GlyphInLetterArea(x: int, y: int)
    requires IsGlyph(x, y)
    ensures PadX <= x < PadX + LetterW && PadY <= y < PadY + LetterH
    ensures !(PadX + GlyphCols * Scale <= x < PadX + GlyphCols * Scale + Gap)
  {
  }

  lemma SquareAtMost(d: int, m: int)
    requires -m <= d <= m
    ensures d * d <= m * m
  {
    if d < 0 {
      assert d * d == (-d) * (-d);
    }
    assert (m - d) * (m + d) >= 0;
  }

  /** No drawn pixel falls in a cut-off corner, so the whole of both letters is visible. */
  lemma GlyphInside(x: int, y: int)
    requires IsGlyph(x, y)
    ensures InsideRoundedRect(x, y, Radius)
  {
    GlyphInLetterArea(x, y);
    var dx := x - Clamp(x, Radius, W);
    assert Clamp(y, Radius, H) == y;
    SquareAtMost(dx, 4);
  }

  /** The colour of pixel `(x, y)`: transparent outside the rounded square, black on a glyph, yellow elsewhere. */
  function Colour(x: int, y: int): (c: seq<Byte>)
    ensures |c| == 4
  {
    if !InsideRoundedRect(x, y, Radius) then Tr
    else if IsGlyph(x, y) then Fg
    else Bg
  }

  /** Each colour marks one region: black exactly on the glyphs, transparent exactly outside the rounded square. */
  lemma ColourRegions(x: int, y: int)
    ensures Colour(x, y) == Fg <==> IsGlyph(x, y)
    ensures Colour(x, y) == Tr <==> !InsideRoundedRect(x, y, Radius)
    ensures Colour(x, y) == Bg <==> InsideRoundedRect(x, y, Radius) && !IsGlyph(x, y)
  {
    if IsGlyph(x, y) {
      GlyphInside(x, y);
    }
    assert Fg[3] != Tr[3] && Fg[0] != Bg[0] && Bg[0] != Tr[0];
  }

  // ---------------------------------------------------------------------------------
  // The RGBA pixel buffer
  // ---------------------------------------------------------------------------------

  /** Where pixel `(x, y)`'s byte `k` is kept: rows top to bottom, pixels left to right, four bytes each. */
  function PixelIndex(x: int, y: int, k: int): int {
    (y * W + x) * 4 + k
  }

  /** The picture as the pixel buffer holds it: byte `i` is byte `i % 4` of pixel `i / 4`. */
  function Picture(): (p: seq<Byte>)
    ensures |p| == W * H * 4
  {
    seq(W * H * 4, i requires 0 <= i < W * H * 4 => Colour(i / 4 % W, i / 4 / W)[i % 4])
  }

  /** Byte `k` of pixel `(x, y)` in the picture is byte `k` of its colour. */
  lemma PictureAt(x: int, y: int, k: int)
    requires 0 <= x < W && 0 <= y < H && 0 <= k < 4
    ensures 0 <= PixelIndex(x, y, k) < W * H * 4
    ensures Picture()[PixelIndex(x, y, k)] == Colour(x, y)[k]
  {
    var q := y * W + x;
    assert q < W * H;
    assert PixelIndex(x, y, k) == 4 * q + k;
    assert (4 * q + k) / 4 == q && (4 * q + k) % 4 == k;
    assert q / W == y && q % W == x;
  }

  /** The four bytes of pixel `(x, y)` in the picture are its colour. */
  lemma PictureSlice(x: int, y: int)
    requires 0 <= x < W && 0 <= y < H
    ensures PixelIndex(x, y, 4) <= W * H * 4
    ensures Picture()[PixelIndex(x, y, 0)..PixelIndex(x, y, 4)] == Colour(x, y)
  {
    forall k | 0 <= k < 4
      ensures Picture()[PixelIndex(x, y, 0)..PixelIndex(x, y, 4)][k] == Colour(x, y)[k]
    {
      PictureAt(x, y, k);
    }
  }

  /** The nested loops that fill the pixel buffer, one pixel after the other. */
  method FillPixels() returns (pixels: array<Byte>)
    ensures fresh(pixels)
    ensures pixels[..] == Picture()
  {
    pixels := new Byte[W * H * 4](_ => 0);
    for y := 0 to H
      invariant pixels[..PixelIndex(0, y, 0)] == Picture()[..PixelIndex(0, y, 0)]
    {
      for x := 0 to W
        invariant pixels[..PixelIndex(x, y, 0)] == Picture()[..PixelIndex(x, y, 0)]
      {
        var idx := PixelIndex(x, y, 0);
        var colour := Colour(x, y);
        ghost var before := pixels[..];
        pixels[idx] := colour[0];
        pixels[idx + 1] := colour[1];
        pixels[idx + 2] := colour[2];
        pixels[idx + 3] := colour[3];
        assert pixels[idx..idx + 4] == colour;
        assert pixels[..idx] == before[..idx];
        PictureSlice(x, y);
        Raster.Extend(pixels[..], idx, idx + 4, colour);
        Raster.Extend(Picture(), idx, idx + 4, colour);
      }
    }
    assert pixels[..] == pixels[..PixelIndex(0, H, 0)];
  }

  // ---------------------------------------------------------------------------------
  // Scanlines and the PNG file
  // ---------------------------------------------------------------------------------

  /** The image data of the favicon: 32 scanlines, each filter byte 0 and the row's 32 colours. */
  function Image(): (r: seq<Byte>)
    ensures |r| == H * (W * 4 + 1)
  {
    Raster.Scanlines(W * 4, H, Picture())
  }

  /** Row `y` of the image data is filter byte 0 at `129 * y`, then pixel `(x, y)`'s colour at `129 * y + 1 + 4 * x`. */
  lemma ImageAt(x: int, y: int, k: int)
    requires 0 <= x < W && 0 <= y < H && 0 <= k < 4
    ensures y * (W * 4 + 1) + 1 + 4 * x + k < |Image()|
    ensures Image()[y * (W * 4 + 1)] == 0
    ensures Image()[y * (W * 4 + 1) + 1 + 4 * x + k] == Colour(x, y)[k]
  {
    ImageFilterAt(y);
    ImagePixelAt(x, y, k);
    PictureAt(x, y, k);
  }

  lemma ImageFilterAt(y: int)
    requires 0 <= y < H
    ensures y * (W * 4 + 1) < |Image()| && Image()[y * (W * 4 + 1)] == 0
  {
    Raster.FilterByte(W * 4, H, Picture(), y);
  }

  lemma ImagePixelAt(x: int, y: int, k: int)
    requires 0 <= x < W && 0 <= y < H && 0 <= k < 4
    ensures 0 <= PixelIndex(x, y, k) < |Picture()|
    ensures y * (W * 4 + 1) + 1 + 4 * x + k < |Image()|
    ensures Image()[y * (W * 4 + 1) + 1 + 4 * x + k] == Picture()[PixelIndex(x, y, k)]
  {
    Raster.PixelByte(W * 4, H, Picture(), y, 4 * x + k);
    assert Raster.PixelPos(W * 4, y, 4 * x + k) == PixelIndex(x, y, k);
    assert Raster.BytePos(W * 4, y, 4 * x + k) == y * (W * 4 + 1) + 1 + 4 * x + k;
  }

  /**
   * `buildPNG`'s scanline loop: each row's filter byte 0, then the row's pixels copied
   * from the pixel buffer.
   */
  method BuildRaw(pixels: array<Byte>) returns (raw: array<Byte>)
    requires pixels.Length == W * H * 4
    ensures fresh(raw)
    ensures raw[..] == Raster.Scanlines(W * 4, H, pixels[..])
  {
    Raster.ScanlinesLaid(W * 4, H, pixels[..]);
    raw := CopyRows(pixels, Raster.Scanlines(W * 4, H, pixels[..]));
  }

  /** The loop itself, against any image data `spec` with the layout of the pixel buffer's scanlines. */
  method CopyRows(pixels: array<Byte>, ghost spec: seq<Byte>) returns (raw: array<Byte>)
    requires pixels.Length == W * H * 4 && |spec| == H * (1 + W * 4)
    requires Raster.Laid(W * 4, H, pixels[..], spec)
    ensures fresh(raw)
    ensures raw[..] == spec
  {
    raw := new Byte[H * (1 + W * 4)];
    for y := 0 to H
      invariant forall i :: 0 <= i < y * (1 + W * 4) ==> raw[i] == spec[i]
    {
      assert spec[Raster.FilterPos(W * 4, y)] == 0;
      raw[y * (1 + W * 4)] := 0;
      CopyRow(pixels, spec, raw, y);
    }
    assert raw[..] == spec;
  }

  /** Row `y`: its pixels copied after its filter byte, four bytes at a time. */
  method CopyRow(pixels: array<Byte>, ghost spec: seq<Byte>, raw: array<Byte>, y: nat)
    requires pixels.Length == W * H * 4 && |spec| == raw.Length == H * (1 + W * 4) && y < H
    requires raw != pixels
    requires Raster.Laid(W * 4, H, pixels[..], spec)
    requires forall i :: 0 <= i <= y * (1 + W * 4) ==> raw[i] == spec[i]
    modifies raw
    ensures forall i :: 0 <= i < (y + 1) * (1 + W * 4) ==> raw[i] == spec[i]
  {
    ghost var p := pixels[..];
    for x := 0 to W
      invariant forall i :: 0 <= i < y * (1 + W * 4) + 1 + x * 4 ==> raw[i] == spec[i]
    {
      var src := (y * W + x) * 4;
      var dst := y * (1 + W * 4) + 1 + x * 4;
      LaidPixel(p, spec, x, y);
      raw[dst] := pixels[src];
      raw[dst + 1] := pixels[src + 1];
      raw[dst + 2] := pixels[src + 2];
      raw[dst + 3] := pixels[src + 3];
    }
  }

  /** Pixel `(x, y)`'s four bytes sit in the image data right after the pixels before it in its row. */
  lemma LaidPixel(p: seq<Byte>, spec: seq<Byte>, x: nat, y: nat)
    requires |p| == W * H * 4 && x < W && y < H
    requires Raster.Laid(W * 4, H, p, spec)
    ensures var src, dst := (y * W + x) * 4, y * (1 + W * 4) + 1 + x * 4;
            && src + 3 < |p| && dst + 3 < |spec|
            && spec[dst] == p[src] && spec[dst + 1] == p[src + 1]
            && spec[dst + 2] == p[src + 2] && spec[dst + 3] == p[src + 3]
  {
    assert spec[Raster.BytePos(W * 4, y, x * 4)] == p[Raster.PixelPos(W * 4, y, x * 4)];
    assert spec[Raster.BytePos(W * 4, y, x * 4 + 1)] == p[Raster.PixelPos(W * 4, y, x * 4 + 1)];
    assert spec[Raster.BytePos(W * 4, y, x * 4 + 2)] == p[Raster.PixelPos(W * 4, y, x * 4 + 2)];
    assert spec[Raster.BytePos(W * 4, y, x * 4 + 3)] == p[Raster.PixelPos(W * 4, y, x * 4 + 3)];
  }

  /** The PNG the favicon script writes, for a given compressor. */
  function PngFile(deflate: seq<Byte> -> seq<Byte>): (r: seq<Byte>)
    requires |deflate(Image())| < Two32
    ensures |r| == 57 + |deflate(Image())|
    ensures Png.ParseFile(r) == Some((Png.Ihdr(W, H, 6), deflate(Image())))
  {
    Png.FileRoundTrip(Png.Ihdr(W, H, 6), deflate(Image()));
    Png.File(Png.Ihdr(W, H, 6), deflate(Image()))
  }

  /**
   * `buildPNG`: the CRC table, the IHDR buffer, the pixel buffer and its scanlines, the
   * compressed scanlines, then signature and chunks concatenated. `deflateSync` throws no
   * error here; its output must fit a chunk's 32-bit length.
   */
  method BuildPng(deflate: seq<Byte> -> seq<Byte>) returns (png: seq<Byte>)
    requires |deflate(Image())| < Two32
    ensures png == PngFile(deflate)
  {
    var table := Crc.BuildTable();
    var ihdr := Png.WriteIhdr(W, H, 6);
    var pixels := FillPixels();
    var raw := BuildRaw(pixels);
    assert raw[..] == Image();
    var idat := deflate(raw[..]);
    var ihdrChunk := Png.WriteChunk(table, Png.IhdrType, ihdr[..]);
    var idatChunk := Png.WriteChunk(table, Png.IdatType, idat);
    var iendChunk := Png.WriteChunk(table, Png.IendType, []);
    png := Png.Signature + ihdrChunk + idatChunk + iendChunk;
  }

  /**
   * `buildICO(pngData)`: the six header bytes and the sixteen entry bytes written field
   * by field into fresh buffers, then the PNG appended.
   */
  method BuildIco(png: seq<Byte>) returns (ico: seq<Byte>)
    requires |png| < Two32
    ensures ico == Ico.File(W, H, png)
  {
    var header := WriteIcoHeader();
    var entry := WriteIcoEntry(|png|);
    ico := header[..] + entry[..] + png;
  }

  /** The six header bytes: reserved 0, type 1, one image. */
  method WriteIcoHeader() returns (header: array<Byte>)
    ensures fresh(header)
    ensures header[..] == Ico.Header()
  {
    header := new Byte[6];
    WriteUInt16LE(header, 0, 0);
    assert header[..2] == Le16(0);
    WriteUInt16LE(header, 1, 2);
    assert header[..4] == Le16(0) + Le16(1);
    WriteUInt16LE(header, 1, 4);
    assert header[..] == Le16(0) + Le16(1) + Le16(1);
  }

  /** The sixteen bytes of the directory entry for an image of `size` bytes. */
  method WriteIcoEntry(size: nat) returns (entry: array<Byte>)
    requires size < Two32
    ensures fresh(entry)
    ensures entry[..] == Ico.Entry(W, H, size)
  {
    entry := new Byte[16];
    entry[0] := Ico.SizeByte(W);
    entry[1] := Ico.SizeByte(H);
    entry[2] := 0;
    entry[3] := 0;
    ghost var e := [Ico.SizeByte(W), Ico.SizeByte(H), 0, 0];
    assert entry[..4] == e;
    WriteUInt16LE(entry, 1, 4);
    assert entry[..6] == e + Le16(1);
    WriteUInt16LE(entry, 32, 6);
    assert entry[..8] == e + Le16(1) + Le16(32);
    WriteUInt32LE(entry, size, 8);
    assert entry[..12] == e + Le16(1) + Le16(32) + Le32(size);
    WriteUInt32LE(entry, 6 + 16, 12);
    assert entry[..] == e + Le16(1) + Le16(32) + Le32(size) + Le32(Ico.DataOffset);
  }

  /** The whole script: `buildICO(buildPNG())`, the bytes written to `public/favicon.ico`. */
  method Generate(deflate: seq<Byte> -> seq<Byte>) returns (ico: seq<Byte>)
    requires |deflate(Image())| + 57 < Two32
    ensures ico == Ico.File(W, H, PngFile(deflate))
  {
    var png := BuildPng(deflate);
    ico := BuildIco(png);
  }

  /** The favicon reads back as one 32 by 32 icon whose data is the PNG. */
  lemma FaviconReadsBack(deflate: seq<Byte> -> seq<Byte>)
    requires |deflate(Image())| + 57 < Two32
    ensures Ico.Parse(Ico.File(W, H, PngFile(deflate))) == Some(Ico.Icon(32, 32, PngFile(deflate)))
  {
    var png := PngFile(deflate);
    Ico.RoundTrip(W, H, png);
  }

  /** The PNG's header record says 32 by 32, bit depth 8, colour type 6 (RGBA). */
  lemma FaviconHeader()
    ensures ReadBe32(Png.Ihdr(W, H, 6)[0..4]) == 32 && ReadBe32(Png.Ihdr(W, H, 6)[4..8]) == 32
    ensures Png.Ihdr(W, H, 6)[8..10] == [8, 6]
  {
    Png.IhdrFields(W, H, 6);
  }
}
