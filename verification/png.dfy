/**
 * The PNG container both icon scripts write (the PNG specification, ISO/IEC 15948):
 * the signature of section 5.2, chunks laid out as in section 5.3 with the CRC of
 * section 5.5, the IHDR record of section 11.2.2 and the empty IEND chunk of section
 * 11.2.5. A parser for the same layout is the partner every encoder is proved against.
 */
module Png {
  import opened Wrappers
  import opened Bytes
  import Crc

  /** Section 5.2: the eight bytes every PNG starts with. */
  const Signature: seq<Byte> := [0x89, 0x50, 0x4E, 0x47, 0x0D, 0x0A, 0x1A, 0x0A]

  /** The chunk types the scripts write, as `Buffer.from(type, "ascii")` encodes them. */
  const IhdrType: seq<Byte> := [73, 72, 68, 82]
  const IdatType: seq<Byte> := [73, 68, 65, 84]
  const IendType: seq<Byte> := [73, 69, 78, 68]

  /** The bytes as the bit patterns the CRC register reads. */
  function Bits(s: seq<Byte>): (r: seq<bv8>)
    ensures |r| == |s|
  {
    seq(|s|, i requires 0 <= i < |s| => s[i] as bv8)
  }

  /** `writeUInt32BE(crc32(bytes))`: the CRC of `bytes`, most significant byte first. */
  function CrcBytes(bytes: seq<Byte>): (r: seq<Byte>)
    ensures |r| == 4
  {
    Be32(Crc.Unsigned(Crc.Crc32(Bits(bytes))))
  }

  /**
   * `pngChunk(type, data)` and `chunk(type, data)`: the data length as four big-endian
   * bytes, the type, the data, then the CRC of type and data.
   */
  function Chunk(kind: seq<Byte>, data: seq<Byte>): (r: seq<Byte>)
    requires |kind| == 4 && |data| < Two32
    ensures |r| == 12 + |data|
  {
    Be32(|data|) + kind + data + CrcBytes(kind + data)
  }

  /**
   * The favicon script's `pngChunk(type, data)`: the CRC comes from the register loop
   * over `type ++ data`, run with the table the script built.
   */
  method WriteChunk(table: array<bv32>, kind: seq<Byte>, data: seq<Byte>) returns (chunk: seq<Byte>)
    requires table[..] == Crc.Table()
    requires |kind| == 4 && |data| < Two32
    ensures chunk == Chunk(kind, data)
  {
    var crc := Crc.Crc32Table(table, Bits(kind + data));
    chunk := Be32(|data|) + kind + data + Be32(Crc.Unsigned(crc));
  }

  /** A chunk read back: its type, its data, and what follows it. */
  datatype Parsed = Parsed(kind: seq<Byte>, data: seq<Byte>, rest: seq<Byte>)

  /**
   * Reads one chunk off the front of `b`: `None` when the bytes end early or the stored
   * CRC is not the CRC of the type and data read.
   */
  function ParseChunk(b: seq<Byte>): (r: Option<Parsed>)
    ensures r.Some? ==> |r.value.kind| == 4 && |r.value.rest| < |b|
  {
    if |b| < 12 then None
    else
      var n := ReadBe32(b[..4]);
      if |b| < 12 + n then None
      else
        var kind, data := b[4..8], b[8..8 + n];
        if b[8 + n..12 + n] != CrcBytes(kind + data) then None
        else Some(Parsed(kind, data, b[12 + n..]))
  }

  /** A chunk reads back as the type and data it was written from, whatever follows it. */
  lemma ChunkRoundTrip(kind: seq<Byte>, data: seq<Byte>, rest: seq<Byte>)
    requires |kind| == 4 && |data| < Two32
    ensures ParseChunk(Chunk(kind, data) + rest) == Some(Parsed(kind, data, rest))
  {
    var b := Chunk(kind, data) + rest;
    var n := |data|;
    Be32RoundTrip(n);
    assert b[..4] == Be32(n);
    assert b[4..8] == kind;
    assert b[8..8 + n] == data;
    assert b[8 + n..12 + n] == CrcBytes(kind + data);
    assert b[12 + n..] == rest;
  }

  /** Section 11.2.5: the IEND chunk is always the same twelve bytes. */
  lemma IendChunk()
    ensures Chunk(IendType, []) == [0, 0, 0, 0] + IendType + [0xAE, 0x42, 0x60, 0x82]
  {
    EmptyChunk(IendType);
    IendCrcBytes();
    assert Be32(0) == [0, 0, 0, 0];
  }

  lemma EmptyChunk(kind: seq<Byte>)
    requires |kind| == 4
    ensures Chunk(kind, []) == Be32(0) + kind + CrcBytes(kind)
  {
    var empty: seq<Byte> := [];
    assert kind + empty == kind;
  }

  lemma IendCrcBytes()
    ensures CrcBytes(IendType) == [0xAE, 0x42, 0x60, 0x82]
  {
    IendBits();
    Crc.IendCrc();
    CrcValueBytes(Crc.Crc32(Bits(IendType)));
  }

  lemma IendBits()
    ensures Bits(IendType) == [0x49, 0x45, 0x4E, 0x44]
  {
    var b := Bits(IendType);
    assert b[0] == 0x49;
    assert b[1] == 0x45;
    assert b[2] == 0x4E;
    assert b[3] == 0x44;
  }

  lemma CrcValueBytes(crc: bv32)
    requires crc == 0xAE42_6082
    ensures Be32(Crc.Unsigned(crc)) == [0xAE, 0x42, 0x60, 0x82]
  {
  }

  /** Section 11.2.2: width, height, bit depth 8, the colour type, then compression, filter and interlace method 0. */
  function Ihdr(width: nat, height: nat, colourType: Byte): (r: seq<Byte>)
    requires width < Two32 && height < Two32
    ensures |r| == 13
  {
    Be32(width) + Be32(height) + [8, colourType, 0, 0, 0]
  }

  /** The IHDR fields read back: width, height, bit depth and colour type. */
  lemma IhdrFields(width: nat, height: nat, colourType: Byte)
    requires width < Two32 && height < Two32
    ensures ReadBe32(Ihdr(width, height, colourType)[0..4]) == width
    ensures ReadBe32(Ihdr(width, height, colourType)[4..8]) == height
    ensures Ihdr(width, height, colourType)[8..] == [8, colourType, 0, 0, 0]
  {
    var r := Ihdr(width, height, colourType);
    Be32RoundTrip(width);
    Be32RoundTrip(height);
    assert r[0..4] == Be32(width);
    assert r[4..8] == Be32(height);
  }

  /**
   * The IHDR buffer as both scripts fill it: `writeUInt32BE` for width and height, then
   * the five single bytes.
   */
  method WriteIhdr(width: nat, height: nat, colourType: Byte) returns (ihdr: array<Byte>)
    requires width < Two32 && height < Two32
    ensures fresh(ihdr)
    ensures ihdr[..] == Ihdr(width, height, colourType)
  {
    ihdr := new Byte[13];
    WriteUInt32BE(ihdr, width, 0);
    WriteUInt32BE(ihdr, height, 4);
    ihdr[8] := 8;
    ihdr[9] := colourType;
    ihdr[10] := 0;
    ihdr[11] := 0;
    ihdr[12] := 0;
    assert ihdr[..] == Be32(width) + Be32(height) + [8, colourType, 0, 0, 0];
  }

  /** The file: the signature, then the IHDR, IDAT and IEND chunks in that order. */
  function File(ihdr: seq<Byte>, idat: seq<Byte>): (r: seq<Byte>)
    requires |ihdr| == 13 && |idat| < Two32
    ensures |r| == 57 + |idat|
  {
    Signature + Chunk(IhdrType, ihdr) + Chunk(IdatType, idat) + Chunk(IendType, [])
  }

  /** Reads a whole file back: the signature, then exactly an IHDR, an IDAT and an empty IEND chunk. */
  function ParseFile(b: seq<Byte>): (r: Option<(seq<Byte>, seq<Byte>)>)
  {
    if |b| < 8 || b[..8] != Signature then None
    else
      match ParseChunk(b[8..])
      case None => None
      case Some(h) =>
        if h.kind != IhdrType then None
        else
          match ParseChunk(h.rest)
          case None => None
          case Some(d) =>
            if d.kind != IdatType then None
            else
              match ParseChunk(d.rest)
              case None => None
              case Some(e) =>
                if e.kind != IendType || e.data != [] || e.rest != [] then None
                else Some((h.data, d.data))
  }

  lemma Regroup(a: seq<Byte>, b: seq<Byte>, c: seq<Byte>, d: seq<Byte>)
    ensures (a + b + c + d)[..|a|] == a
    ensures (a + b + c + d)[|a|..] == b + (c + d)
  {
    assert a + b + c + d == a + (b + (c + d));
  }

  /** The file is the signature followed by its three chunks. */
  lemma FileLayout(ihdr: seq<Byte>, idat: seq<Byte>)
    requires |ihdr| == 13 && |idat| < Two32
    ensures File(ihdr, idat)[..8] == Signature
    ensures File(ihdr, idat)[8..] == Chunk(IhdrType, ihdr) + (Chunk(IdatType, idat) + Chunk(IendType, []))
  {
    Regroup(Signature, Chunk(IhdrType, ihdr), Chunk(IdatType, idat), Chunk(IendType, []));
  }

  /** `ParseFile` accepts a signature followed by an IHDR, an IDAT and an empty IEND chunk, and nothing else. */
  lemma ParseFileAccepts(b: seq<Byte>, ihdr: seq<Byte>, idat: seq<Byte>, afterIhdr: seq<Byte>, afterIdat: seq<Byte>)
    requires |b| >= 8 && b[..8] == Signature
    requires ParseChunk(b[8..]) == Some(Parsed(IhdrType, ihdr, afterIhdr))
    requires ParseChunk(afterIhdr) == Some(Parsed(IdatType, idat, afterIdat))
    requires ParseChunk(afterIdat) == Some(Parsed(IendType, [], []))
    ensures ParseFile(b) == Some((ihdr, idat))
  {
  }

  /** A file reads back as its header record and its compressed image data. */
  lemma FileRoundTrip(ihdr: seq<Byte>, idat: seq<Byte>)
    requires |ihdr| == 13 && |idat| < Two32
    ensures ParseFile(File(ihdr, idat)) == Some((ihdr, idat))
  {
    var d, e := Chunk(IdatType, idat), Chunk(IendType, []);
    FileLayout(ihdr, idat);
    ChunkRoundTrip(IhdrType, ihdr, d + e);
    ChunkRoundTrip(IdatType, idat, e);
    ChunkRoundTrip(IendType, [], []);
    assert e + [] == e;
    ParseFileAccepts(File(ihdr, idat), ihdr, idat, d + e, e);
  }
}
