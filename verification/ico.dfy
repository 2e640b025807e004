/**
 * The ICO container the favicon script wraps its PNG in: a six-byte header (reserved 0,
 * type 1 for icons, one image), one sixteen-byte directory entry, then the PNG itself.
 * All multi-byte fields are little-endian; a width or height of 256 is stored as 0.
 */
module Ico {
  import opened Wrappers
  import opened Bytes

  /** The header and the one directory entry: where the image data starts. */
  const DataOffset: nat := 6 + 16

  /** `W === 256 ? 0 : W` stored into a byte of the entry (a `Buffer` keeps the low eight bits). */
  function SizeByte(n: nat): (b: Byte)
    ensures 1 <= n <= 256 ==> ReadSize(b) == n
  {
    if n == 256 then 0 else n % 256
  }

  /** How a reader takes the size byte back: 0 means 256. */
  function ReadSize(b: Byte): (n: nat)
    ensures 1 <= n <= 256
  {
    if b == 0 then 256 else b
  }

  /** Reserved 0, type 1 (icon), count 1. */
  function Header(): (r: seq<Byte>)
    ensures |r| == 6
  {
    Le16(0) + Le16(1) + Le16(1)
  }

  /**
   * The directory entry: width and height bytes, no palette, the reserved byte, one
   * colour plane, 32 bits per pixel, the image's length and its offset.
   */
  function Entry(width: nat, height: nat, size: nat): (r: seq<Byte>)
    requires size < Two32
    ensures |r| == 16
  {
    [SizeByte(width), SizeByte(height), 0, 0] + Le16(1) + Le16(32) + Le32(size) + Le32(DataOffset)
  }

  /** `buildICO(pngData)`: header, entry, PNG. */
  function File(width: nat, height: nat, png: seq<Byte>): (r: seq<Byte>)
    requires |png| < Two32
    ensures |r| == DataOffset + |png|
  {
    Header() + Entry(width, height, |png|) + png
  }

  /** One icon read back from a file: its stated size and its image data. */
  datatype Icon = Icon(width: nat, height: nat, png: seq<Byte>)

  /**
   * A reader for files of exactly this shape: the header, an entry with one plane and 32
   * bits per pixel whose length and offset point at the rest of the file.
   */
  function Parse(b: seq<Byte>): (r: Option<Icon>)
    ensures r.Some? ==> |b| == DataOffset + |r.value.png| && b[DataOffset..] == r.value.png
  {
    if |b| < DataOffset || b[..6] != Header() || b[8] != 0 || b[9] != 0 then None
    else if ReadLe16(b[10..12]) != 1 || ReadLe16(b[12..14]) != 32 then None
    else if ReadLe32(b[14..18]) != |b| - DataOffset || ReadLe32(b[18..22]) != DataOffset then None
    else Some(Icon(ReadSize(b[6]), ReadSize(b[7]), b[DataOffset..]))
  }

  /** Every icon the writer produces reads back with its size and its image data. */
  lemma RoundTrip(width: nat, height: nat, png: seq<Byte>)
    requires 1 <= width <= 256 && 1 <= height <= 256 && |png| < Two32
    ensures Parse(File(width, height, png)) == Some(Icon(width, height, png))
  {
    var f := File(width, height, png);
    var e := Entry(width, height, |png|);
    assert f[..6] == Header();
    assert f[6..22] == e;
    assert f[DataOffset..] == png;
    assert f[10..12] == e[4..6] == Le16(1);
    assert f[12..14] == e[6..8] == Le16(32);
    assert f[14..18] == e[8..12] == Le32(|png|);
    assert f[18..22] == e[12..16] == Le32(DataOffset);
    Le16RoundTrip(1);
    Le16RoundTrip(32);
    Le32RoundTrip(|png|);
    Le32RoundTrip(DataOffset);
  }
}
