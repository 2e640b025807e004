/**
 * The app-icon generator: for each size it fills an RGB scanline buffer (indigo square
 * with rounded corners, a white letter, white outside the corners), compresses it, and
 * writes a PNG with colour type 2 and no alpha channel.
 *
 * The script decides "inside the rounded square" and "on the letter" with floating-point
 * geometry; here both are given as a `Shape`, and the model fixes what is painted from
 * them and where each byte goes. Compression is a parameter, as in the favicon model.
 */
module GenIcons {
  import opened Wrappers
  import opened Bytes
  import Crc
  import Png
  import Raster
  import Text

  /** The sizes the script writes, in order. */
  const Sizes: seq<nat> := [192, 512]

  /** The three RGB bytes of the background (#4f46e5) and of white. */
  const Indigo: seq<Byte> := [0x4F, 0x46, 0xE5]
  const White: seq<Byte> := [0xFF, 0xFF, 0xFF]

  /**
   * The geometry, per icon size and pixel `(x, y)`: `inside` is `roundedCornerAlpha` of
   * the normalised coordinates being 1, `letter` is the letter test on the padded ones.
   */
  datatype Shape = Shape(inside: (nat, nat, nat) -> bool, letter: (nat, nat, nat) -> bool)

  /** The colour chosen for a pixel: white outside the rounded square; inside it, white on the letter and indigo elsewhere. */
  function Colour(size: nat, x: nat, y: nat, s: Shape): (c: seq<Byte>)
    ensures |c| == 3
  {
    if !s.inside(size, x, y) then White
    else if s.letter(size, x, y) then White
    else Indigo
  }

  /** Every pixel is indigo or white, and it is indigo exactly when it is inside the square and off the letter. */
  lemma ColourRegions(size: nat, x: nat, y: nat, s: Shape)
    ensures Colour(size, x, y, s) == Indigo <==> s.inside(size, x, y) && !s.letter(size, x, y)
    ensures Colour(size, x, y, s) == White <==> !s.inside(size, x, y) || s.letter(size, x, y)
  {
    assert Indigo[0] != White[0];
  }

  // ---------------------------------------------------------------------------------
  // The picture and its scanlines
  // ---------------------------------------------------------------------------------

  /** The RGB bytes of the first `n` pixels of row `y`. */
  function Row(size: nat, y: nat, n: nat, s: Shape): (r: seq<Byte>)
    ensures |r| == 3 * n
    decreases n
  {
    if n == 0 then [] else Row(size, y, n - 1, s) + Colour(size, n - 1, y, s)
  }

  /** The RGB bytes of the first `n` rows, row after row. */
  function Rows(size: nat, n: nat, s: Shape): (r: seq<Byte>)
    ensures |r| == n * (size * 3)
    decreases n
  {
    if n == 0 then []
    else
      Raster.RowStart(size * 3, n - 1);
      Rows(size, n - 1, s) + Row(size, n - 1, size, s)
  }

  /** The picture, `size` rows of `size` pixels. */
  function Picture(size: nat, s: Shape): (p: seq<Byte>)
    ensures |p| == size * (size * 3)
  {
    Rows(size, size, s)
  }

  /** Byte `k` of pixel `x` in a row is byte `k` of that pixel's colour. */
  lemma {:induction false} RowAt(size: nat, y: nat, n: nat, s: Shape, x: nat, k: nat)
    requires x < n && k < 3
    ensures 3 * x + k < |Row(size, y, n, s)|
    ensures Row(size, y, n, s)[3 * x + k] == Colour(size, x, y, s)[k]
    decreases n
  {
    if x < n - 1 {
      RowAt(size, y, n - 1, s, x, k);
    }
  }

  /** Byte `j` of row `y` of the rows is byte `j` of that row. */
  lemma {:induction false} RowsAt(size: nat, n: nat, s: Shape, y: nat, j: nat)
    requires y < n && j < size * 3
    ensures y * (size * 3) + j < |Rows(size, n, s)|
    ensures Rows(size, n, s)[y * (size * 3) + j] == Row(size, y, size, s)[j]
    decreases n
  {
    Raster.RowStart(size * 3, y);
    Raster.RowStart(size * 3, n - 1);
    if y < n - 1 {
      RowsAt(size, n - 1, s, y, j);
      Raster.MulLe(y + 1, n - 1, size * 3);
    }
  }

  /** Byte `k` of pixel `(x, y)` in the picture is byte `k` of its colour. */
  lemma PictureAt(size: nat, s: Shape, x: nat, y: nat, k: nat)
    requires x < size && y < size && k < 3
    ensures Raster.PixelPos(size * 3, y, 3 * x + k) < |Picture(size, s)|
    ensures Picture(size, s)[Raster.PixelPos(size * 3, y, 3 * x + k)] == Colour(size, x, y, s)[k]
  {
    RowsAt(size, size, s, y, 3 * x + k);
    RowAt(size, y, size, s, x, k);
  }

  /** The image data of a `size` icon: every row filter byte 0 and the row's colours. */
  function Raw(size: nat, s: Shape): (r: seq<Byte>)
    ensures |r| == size * (1 + size * 3)
  {
    Raster.Scanlines(size * 3, size, Picture(size, s))
  }

  /**
   * The layout of the image data: row `y` starts at `y * rowBytes` with filter byte 0,
   * and byte `k` of pixel `(x, y)` sits at `y * rowBytes + 1 + 3 * x + k`, inside row `y`
   * and after its filter byte.
   */
  lemma RawAt(size: nat, s: Shape, x: nat, y: nat, k: nat)
    requires x < size && y < size && k < 3
    ensures var rowBytes := 1 + size * 3;
            && y * rowBytes < y * rowBytes + 1 + 3 * x + k < (y + 1) * rowBytes <= |Raw(size, s)|
            && Raw(size, s)[y * rowBytes] == 0
            && Raw(size, s)[y * rowBytes + 1 + 3 * x + k] == Colour(size, x, y, s)[k]
  {
    RowBounds(size, x, y, k);
    RawFilterAt(size, s, y);
    RawPixelAt(size, s, x, y, k);
  }

  lemma RowBounds(size: nat, x: nat, y: nat, k: nat)
    requires x < size && y < size && k < 3
    ensures var rowBytes := 1 + size * 3;
            y * rowBytes + 1 + 3 * x + k < (y + 1) * rowBytes <= size * (1 + size * 3)
  {
    var rowBytes := 1 + size * 3;
    Raster.RowStart(size * 3, y);
    Raster.MulLe(y + 1, size, rowBytes);
  }

  lemma RawFilterAt(size: nat, s: Shape, y: nat)
    requires y < size
    ensures y * (1 + size * 3) < |Raw(size, s)| && Raw(size, s)[y * (1 + size * 3)] == 0
  {
    Raster.FilterByte(size * 3, size, Picture(size, s), y);
  }

  lemma RawPixelAt(size: nat, s: Shape, x: nat, y: nat, k: nat)
    requires x < size && y < size && k < 3
    ensures y * (1 + size * 3) + 1 + 3 * x + k < |Raw(size, s)|
    ensures Raw(size, s)[y * (1 + size * 3) + 1 + 3 * x + k] == Colour(size, x, y, s)[k]
  {
    Raster.PixelByte(size * 3, size, Picture(size, s), y, 3 * x + k);
    PictureAt(size, s, x, y, k);
  }

  /**
   * The fill loop of `generatePng`: a zeroed buffer of `size` rows of `rowBytes`; each
   * row's filter byte set to 0, each pixel's three bytes written at `y * rowBytes + 1 + 3 * x`.
   */
  method FillRaw(size: nat, s: Shape) returns (raw: array<Byte>)
    ensures fresh(raw)
    ensures raw[..] == Raw(size, s)
  {
    Raster.ScanlinesLaid(size * 3, size, Picture(size, s));
    raw := FillRows(size, s, Raw(size, s));
  }

  /** The loop itself, against any image data `spec` laid out from the picture. */
  method FillRows(size: nat, s: Shape, ghost spec: seq<Byte>) returns (raw: array<Byte>)
    requires |spec| == size * (1 + size * 3)
    requires Raster.Laid(size * 3, size, Picture(size, s), spec)
    ensures fresh(raw)
    ensures raw[..] == spec
  {
    var rowBytes := 1 + size * 3;
    raw := new Byte[size * rowBytes](_ => 0);
    for y := 0 to size
      invariant raw.Length == |spec| && y * rowBytes <= raw.Length
      invariant forall i :: 0 <= i < y * rowBytes ==> raw[i] == spec[i]
    {
      Raster.RowStart(rowBytes, y);
      Raster.MulLe(y + 1, size, rowBytes);
      var start := y * rowBytes;
      assert start == Raster.FilterPos(size * 3, y);
      FilterAt(size, s, spec, y, start);
      raw[start] := 0;
      FillRow(size, s, spec, rowBytes, raw, y, start);
    }
  }

  /** One turn of the outer loop after the filter byte: the inner loop over the row's pixels, row `y` starting at `start`. */
  method FillRow(size: nat, s: Shape, ghost spec: seq<Byte>, rowBytes: nat, raw: array<Byte>, y: nat, start: nat)
    requires y < size && rowBytes == 1 + size * 3 && |spec| == size * rowBytes && raw.Length == |spec|
    requires start == Raster.FilterPos(size * 3, y) && start + rowBytes <= raw.Length
    requires Raster.Laid(size * 3, size, Picture(size, s), spec)
    requires forall i :: 0 <= i <= start ==> raw[i] == spec[i]
    modifies raw
    ensures forall i :: 0 <= i < start + rowBytes ==> raw[i] == spec[i]
  {
    for x := 0 to size
      invariant forall i :: 0 <= i < start + 1 + 3 * x ==> raw[i] == spec[i]
    {
      var colour := Colour(size, x, y, s);
      var off := start + 1 + x * 3;
      PixelBytes(size, s, spec, x, y, start);
      raw[off] := colour[0];
      raw[off + 1] := colour[1];
      raw[off + 2] := colour[2];
    }
  }

  /** Row `y`'s filter byte in laid-out image data, the row starting at `start`. */
  lemma FilterAt(size: nat, s: Shape, spec: seq<Byte>, y: nat, start: nat)
    requires y < size && start == Raster.FilterPos(size * 3, y)
    requires Raster.Laid(size * 3, size, Picture(size, s), spec)
    ensures start < |spec| && spec[start] == 0
  {
  }

  /** Pixel `(x, y)`'s three bytes in laid-out image data, the row starting at `start`. */
  lemma PixelBytes(size: nat, s: Shape, spec: seq<Byte>, x: nat, y: nat, start: nat)
    requires x < size && y < size && start == Raster.FilterPos(size * 3, y)
    requires Raster.Laid(size * 3, size, Picture(size, s), spec)
    ensures var off := start + 1 + x * 3;
            && off + 2 < |spec|
            && spec[off] == Colour(size, x, y, s)[0]
            && spec[off + 1] == Colour(size, x, y, s)[1]
            && spec[off + 2] == Colour(size, x, y, s)[2]
  {
    PixelByte(size, s, spec, x, y, start, 0);
    PixelByte(size, s, spec, x, y, start, 1);
    PixelByte(size, s, spec, x, y, start, 2);
  }

  lemma PixelByte(size: nat, s: Shape, spec: seq<Byte>, x: nat, y: nat, start: nat, k: nat)
    requires x < size && y < size && k < 3 && start == Raster.FilterPos(size * 3, y)
    requires Raster.Laid(size * 3, size, Picture(size, s), spec)
    ensures start + 1 + x * 3 + k < |spec|
    ensures spec[start + 1 + x * 3 + k] == Colour(size, x, y, s)[k]
  {
    assert Raster.BytePos(size * 3, y, 3 * x + k) == start + 1 + x * 3 + k;
    assert spec[Raster.BytePos(size * 3, y, 3 * x + k)] == Picture(size, s)[Raster.PixelPos(size * 3, y, 3 * x + k)];
    PictureAt(size, s, x, y, k);
  }

  // ---------------------------------------------------------------------------------
  // Chunks, the PNG file and the two icons
  // ---------------------------------------------------------------------------------

  /**
   * `chunk(type, data)`: the type and data concatenated into one buffer, the ranged CRC
   * run over all of it with its default bounds, and the four parts concatenated.
   */
  method WriteChunk(table: array<bv32>, kind: seq<Byte>, data: seq<Byte>) returns (chunk: seq<Byte>)
    requires table[..] == Crc.Table()
    requires |kind| == 4 && |data| < Two32
    ensures chunk == Png.Chunk(kind, data)
  {
    var bits := Png.Bits(kind + data);
    var crcBuf := new bv8[|bits|](i requires 0 <= i < |bits| => bits[i]);
    assert crcBuf[..] == bits;
    var crc := Crc.Crc32Range(table, crcBuf, 0, crcBuf.Length);
    chunk := Be32(|data|) + kind + data + Be32(Crc.Unsigned(crc));
  }

  /** The PNG written for a `size` icon: colour type 2, and the compressed image data. */
  function PngFile(size: nat, s: Shape, deflate: seq<Byte> -> seq<Byte>): (r: seq<Byte>)
    requires size < Two32 && |deflate(Raw(size, s))| < Two32
    ensures |r| == 57 + |deflate(Raw(size, s))|
  {
    Png.File(Png.Ihdr(size, size, 2), deflate(Raw(size, s)))
  }

  /** Each icon reads back as its header record and its compressed scanlines. */
  lemma IconReadsBack(size: nat, s: Shape, deflate: seq<Byte> -> seq<Byte>)
    requires size < Two32 && |deflate(Raw(size, s))| < Two32
    ensures Png.ParseFile(PngFile(size, s, deflate)) == Some((Png.Ihdr(size, size, 2), deflate(Raw(size, s))))
  {
    Png.FileRoundTrip(Png.Ihdr(size, size, 2), deflate(Raw(size, s)));
  }

  /** The header record of every icon says `size` by `size`, bit depth 8, colour type 2 (RGB), and methods 0. */
  lemma IconHeader(size: nat)
    requires size < Two32
    ensures ReadBe32(Png.Ihdr(size, size, 2)[0..4]) == size && ReadBe32(Png.Ihdr(size, size, 2)[4..8]) == size
    ensures Png.Ihdr(size, size, 2)[8..] == [8, 2, 0, 0, 0]
  {
    Png.IhdrFields(size, size, 2);
  }

  /**
   * `generatePng(size)`: the scanlines filled, compressed, then signature, IHDR, IDAT and
   * IEND concatenated.
   */
  method GeneratePng(table: array<bv32>, size: nat, s: Shape, deflate: seq<Byte> -> seq<Byte>) returns (png: seq<Byte>)
    requires table[..] == Crc.Table()
    requires size < Two32 && |deflate(Raw(size, s))| < Two32
    ensures png == PngFile(size, s, deflate)
  {
    var raw := FillRaw(size, s);
    var compressed := deflate(raw[..]);
    var ihdr := Png.WriteIhdr(size, size, 2);
    var ihdrChunk := WriteChunk(table, Png.IhdrType, ihdr[..]);
    var idatChunk := WriteChunk(table, Png.IdatType, compressed);
    var iendChunk := WriteChunk(table, Png.IendType, []);
    png := Png.Signature + ihdrChunk + idatChunk + iendChunk;
  }

  /** `icon-${size}.png`, the name each icon is written under in the output directory. */
  function FileName(size: nat): string {
    "icon-" + Text.NatToString(size) + ".png"
  }

  /** The two names the script writes. */
  lemma IconNames()
    ensures FileName(Sizes[0]) == "icon-192.png" && FileName(Sizes[1]) == "icon-512.png"
  {
  }

  /** Every size fits an IHDR field, and its compressed scanlines fit a chunk's length field. */
  predicate Fits(sizes: seq<nat>, s: Shape, deflate: seq<Byte> -> seq<Byte>) {
    forall i :: 0 <= i < |sizes| ==> sizes[i] < Two32 && |deflate(Raw(sizes[i], s))| < Two32
  }

  /** `files` are the first files the loop writes: file `j` is named after `sizes[j]` and holds its PNG. */
  predicate Written(files: seq<(string, seq<Byte>)>, sizes: seq<nat>, s: Shape, deflate: seq<Byte> -> seq<Byte>)
    requires Fits(sizes, s, deflate)
    decreases |files|
  {
    && |files| <= |sizes|
    && (files != [] ==>
          var j := |files| - 1;
          Written(files[..j], sizes, s, deflate) && files[j] == (FileName(sizes[j]), PngFile(sizes[j], s, deflate)))
  }

  /** Read file by file: file `j` is named after size `j` and holds that size's PNG. */
  lemma {:induction false} WrittenAt(files: seq<(string, seq<Byte>)>, sizes: seq<nat>, s: Shape, deflate: seq<Byte> -> seq<Byte>, j: nat)
    requires Fits(sizes, s, deflate) && Written(files, sizes, s, deflate) && j < |files|
    ensures files[j] == (FileName(sizes[j]), PngFile(sizes[j], s, deflate))
    decreases |files|
  {
    if j < |files| - 1 {
      WrittenAt(files[..|files| - 1], sizes, s, deflate, j);
    }
  }

  /**
   * The loop over the sizes, with the table built once when the script starts: one file
   * per size, in order. Writing a file is returning it, with its name.
   */
  method GenerateIcons(s: Shape, deflate: seq<Byte> -> seq<Byte>) returns (files: seq<(string, seq<Byte>)>)
    requires Fits(Sizes, s, deflate)
    ensures |files| == |Sizes| && Written(files, Sizes, s, deflate)
  {
    var table := Crc.BuildTable();
    files := [];
    for i := 0 to |Sizes|
      invariant table[..] == Crc.Table()
      invariant |files| == i && Written(files, Sizes, s, deflate)
    {
      var png := GeneratePng(table, Sizes[i], s, deflate);
      ghost var before := files;
      files := files + [(FileName(Sizes[i]), png)];
      assert files[..i] == before;
    }
  }
}
