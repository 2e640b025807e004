/**
 * The uncompressed image data both icon scripts hand to `deflateSync`: one scanline per
 * row, each the filter-type byte 0 ("None", section 9.2 of the PNG specification)
 * followed by the row's pixel bytes, left to right.
 *
 * The pixel bytes are given as one buffer, row after row, `rowLen` bytes a row.
 */
module Raster {
  import opened Bytes

  /** The first `rows` scanlines of the pixel buffer `p`. */
  function Scanlines(rowLen: nat, rows: nat, p: seq<Byte>): (r: seq<Byte>)
    requires |p| == rows * rowLen
    ensures |r| == rows * (rowLen + 1)
    decreases rows
  {
    if rows == 0 then []
    else
      RowStart(rowLen, rows - 1);
      Scanlines(rowLen, rows - 1, p[..(rows - 1) * rowLen]) + [0] + p[(rows - 1) * rowLen..]
  }

  /** Row `y + 1` starts right after row `y`, for both strides. */
  lemma RowStart(rowLen: nat, y: nat)
    ensures (y + 1) * rowLen == y * rowLen + rowLen
    ensures (y + 1) * (rowLen + 1) == y * (rowLen + 1) + rowLen + 1
  {
  }

  lemma MulLe(a: int, b: int, d: int)
    requires a <= b && d >= 0
    ensures a * d <= b * d
  {
    assert b * d - a * d == (b - a) * d;
  }

  /** The scanlines of a buffer's first rows are the first scanlines of the whole buffer. */
  lemma {:induction false} ScanlinesPrefix(rowLen: nat, rows: nat, p: seq<Byte>, y: nat)
    requires |p| == rows * rowLen && y <= rows
    ensures y * rowLen <= |p| && y * (rowLen + 1) <= rows * (rowLen + 1)
    ensures Scanlines(rowLen, rows, p)[..y * (rowLen + 1)] == Scanlines(rowLen, y, p[..y * rowLen])
    decreases rows
  {
    MulLe(y, rows, rowLen);
    MulLe(y, rows, rowLen + 1);
    if y < rows {
      var last, lastRow := (rows - 1) * rowLen, (rows - 1) * (rowLen + 1);
      var a, s := y * rowLen, y * (rowLen + 1);
      RowStart(rowLen, rows - 1);
      MulLe(y, rows - 1, rowLen);
      MulLe(y, rows - 1, rowLen + 1);
      var q := p[..last];
      var head := Scanlines(rowLen, rows - 1, q);
      assert |head| == lastRow && s <= lastRow;
      ScanlinesPrefix(rowLen, rows - 1, q, y);
      assert q[..a] == p[..a];
      assert Scanlines(rowLen, rows, p) == head + [0] + p[last..];
      assert Scanlines(rowLen, rows, p)[..s] == head[..s];
    } else {
      assert p[..y * rowLen] == p;
    }
  }

  /** The scanlines of one more row: the earlier ones, filter byte 0, and the row's pixel bytes. */
  lemma ScanlinesStep(rowLen: nat, y: nat, p: seq<Byte>)
    requires (y + 1) * rowLen <= |p|
    ensures y * rowLen + rowLen == (y + 1) * rowLen
    ensures Scanlines(rowLen, y + 1, p[..(y + 1) * rowLen])
            == Scanlines(rowLen, y, p[..y * rowLen]) + [0] + p[y * rowLen..(y + 1) * rowLen]
  {
    RowStart(rowLen, y);
    var q := p[..(y + 1) * rowLen];
    assert q[..y * rowLen] == p[..y * rowLen];
    assert q[y * rowLen..] == p[y * rowLen..(y + 1) * rowLen];
  }

  /** Row `y` of the data: its filter byte 0, then row `y` of the pixel buffer. */
  lemma ScanlineAt(rowLen: nat, rows: nat, p: seq<Byte>, y: nat)
    requires |p| == rows * rowLen && y < rows
    ensures (y + 1) * rowLen == y * rowLen + rowLen <= |p|
    ensures (y + 1) * (rowLen + 1) == y * (rowLen + 1) + rowLen + 1 <= rows * (rowLen + 1)
    ensures Scanlines(rowLen, rows, p)[y * (rowLen + 1)..(y + 1) * (rowLen + 1)]
            == [0] + p[y * rowLen..(y + 1) * rowLen]
  {
    var a, b, s, e := y * rowLen, (y + 1) * rowLen, y * (rowLen + 1), (y + 1) * (rowLen + 1);
    RowStart(rowLen, y);
    ScanlinesPrefix(rowLen, rows, p, y + 1);
    var q := p[..b];
    var head := Scanlines(rowLen, y, q[..a]);
    assert |head| == s;
    assert Scanlines(rowLen, y + 1, q) == head + [0] + q[a..];
    var whole := Scanlines(rowLen, rows, p);
    assert whole[..e] == head + [0] + q[a..];
    assert q[a..] == p[a..b];
    assert whole[s..e] == whole[..e][s..];
  }

  /** Where row `y`'s filter byte sits in the image data. */
  function FilterPos(rowLen: nat, y: nat): nat {
    y * (rowLen + 1)
  }

  /** Where byte `j` of row `y` sits in the image data, and where it comes from in the pixel bytes. */
  function BytePos(rowLen: nat, y: nat, j: nat): nat {
    y * (rowLen + 1) + 1 + j
  }

  function PixelPos(rowLen: nat, y: nat, j: nat): nat {
    y * rowLen + j
  }

  /** Each row starts with filter byte 0. */
  lemma FilterByte(rowLen: nat, rows: nat, p: seq<Byte>, y: nat)
    requires |p| == rows * rowLen && y < rows
    ensures y * (rowLen + 1) < |Scanlines(rowLen, rows, p)|
    ensures Scanlines(rowLen, rows, p)[y * (rowLen + 1)] == 0
    ensures FilterPos(rowLen, y) < |Scanlines(rowLen, rows, p)| && Scanlines(rowLen, rows, p)[FilterPos(rowLen, y)] == 0
  {
    ScanlineAt(rowLen, rows, p, y);
    RowStart(rowLen, y);
    var whole := Scanlines(rowLen, rows, p);
    assert whole[y * (rowLen + 1)] == whole[y * (rowLen + 1)..(y + 1) * (rowLen + 1)][0];
  }

  /**
   * Byte `j` of row `y` of the pixel buffer lands at `y * (rowLen + 1) + 1 + j`: inside
   * row `y`, after its filter byte and before the next row.
   */
  lemma PixelByte(rowLen: nat, rows: nat, p: seq<Byte>, y: nat, j: nat)
    requires |p| == rows * rowLen && y < rows && j < rowLen
    ensures y * rowLen + j < |p|
    ensures y * (rowLen + 1) < y * (rowLen + 1) + 1 + j < (y + 1) * (rowLen + 1) <= |Scanlines(rowLen, rows, p)|
    ensures Scanlines(rowLen, rows, p)[y * (rowLen + 1) + 1 + j] == p[y * rowLen + j]
    ensures PixelPos(rowLen, y, j) < |p| && BytePos(rowLen, y, j) < |Scanlines(rowLen, rows, p)|
    ensures Scanlines(rowLen, rows, p)[BytePos(rowLen, y, j)] == p[PixelPos(rowLen, y, j)]
  {
    ScanlineAt(rowLen, rows, p, y);
    RowStart(rowLen, y);
    var whole := Scanlines(rowLen, rows, p);
    assert whole[y * (rowLen + 1) + 1 + j] == whole[y * (rowLen + 1)..(y + 1) * (rowLen + 1)][1 + j];
  }

  /** A decoder's first step for filter type 0: drop the filter byte of each of the first `rows` rows. */
  function Unfilter(rowLen: nat, rows: nat, raw: seq<Byte>): (p: seq<Byte>)
    requires |raw| == rows * (rowLen + 1)
    ensures |p| == rows * rowLen
    decreases rows
  {
    if rows == 0 then []
    else
      RowStart(rowLen, rows - 1);
      Unfilter(rowLen, rows - 1, raw[..(rows - 1) * (rowLen + 1)]) + raw[(rows - 1) * (rowLen + 1) + 1..]
  }

  /** Dropping the filter bytes gives back the pixel buffer. */
  lemma {:induction false} UnfilterScanlines(rowLen: nat, rows: nat, p: seq<Byte>)
    requires |p| == rows * rowLen
    ensures Unfilter(rowLen, rows, Scanlines(rowLen, rows, p)) == p
    decreases rows
  {
    if rows > 0 {
      RowStart(rowLen, rows - 1);
      var q := p[..(rows - 1) * rowLen];
      UnfilterLast(rowLen, rows - 1, Scanlines(rowLen, rows - 1, q), p[(rows - 1) * rowLen..]);
      UnfilterScanlines(rowLen, rows - 1, q);
      assert q + p[(rows - 1) * rowLen..] == p;
    }
  }

  /** Unfiltering one more scanline appends that row's bytes without its filter byte. */
  lemma UnfilterLast(rowLen: nat, n: nat, s: seq<Byte>, tail: seq<Byte>)
    requires |s| == n * (rowLen + 1) && |tail| == rowLen
    ensures |s + [0] + tail| == (n + 1) * (rowLen + 1)
    ensures Unfilter(rowLen, n + 1, s + [0] + tail) == Unfilter(rowLen, n, s) + tail
  {
    RowStart(rowLen, n);
    var whole := s + [0] + tail;
    assert whole[..n * (rowLen + 1)] == s;
    assert whole[n * (rowLen + 1) + 1..] == tail;
  }

  /** The layout of image data, byte by byte: each row's filter byte 0, then the row's bytes. */
  predicate Laid(rowLen: nat, rows: nat, p: seq<Byte>, raw: seq<Byte>) {
    && (forall y :: 0 <= y < rows ==> FilterPos(rowLen, y) < |raw| && raw[FilterPos(rowLen, y)] == 0)
    && (forall y, j :: 0 <= y < rows && 0 <= j < rowLen ==>
          && BytePos(rowLen, y, j) < |raw| && PixelPos(rowLen, y, j) < |p|
          && raw[BytePos(rowLen, y, j)] == p[PixelPos(rowLen, y, j)])
  }

  /** The scanlines have that layout. */
  lemma ScanlinesLaid(rowLen: nat, rows: nat, p: seq<Byte>)
    requires |p| == rows * rowLen
    ensures Laid(rowLen, rows, p, Scanlines(rowLen, rows, p))
  {
    var s := Scanlines(rowLen, rows, p);
    forall y | 0 <= y < rows
      ensures FilterPos(rowLen, y) < |s| && s[FilterPos(rowLen, y)] == 0
    {
      FilterByte(rowLen, rows, p, y);
    }
    forall y, j | 0 <= y < rows && 0 <= j < rowLen
      ensures BytePos(rowLen, y, j) < |s| && PixelPos(rowLen, y, j) < |p| && s[BytePos(rowLen, y, j)] == p[PixelPos(rowLen, y, j)]
    {
      PixelByte(rowLen, rows, p, y, j);
    }
  }

  /** A buffer whose bytes from `n` up to `m` are `v` has, up to `m`, its bytes up to `n` followed by `v`. */
  lemma Extend(a: seq<Byte>, n: nat, m: nat, v: seq<Byte>)
    requires n <= m <= |a| && a[n..m] == v
    ensures a[..m] == a[..n] + v
  {
  }
}
