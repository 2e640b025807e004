/**
 * Bytes as the scripts' `Buffer`s hold them, and Node's fixed-width integer writers
 * (`writeUInt32BE`, `writeUInt16LE`, `writeUInt32LE`).
 */
module Bytes {
  type Byte = x: int | 0 <= x < 256

  const Two32: nat := 0x1_0000_0000
  const Two16: nat := 0x1_0000

  /** `writeUInt32BE(n)`: the four bytes of `n`, most significant first. */
  function Be32(n: nat): (r: seq<Byte>)
    requires n < Two32
    ensures |r| == 4
  {
    var m1 := n / 256;
    var m2 := m1 / 256;
    [m2 / 256, m2 % 256, m1 % 256, n % 256]
  }

  /** `readUInt32BE`: the value of four bytes, most significant first. */
  function ReadBe32(b: seq<Byte>): (n: nat)
    requires |b| == 4
    ensures n < Two32
  {
    ((b[0] as int * 256 + b[1]) * 256 + b[2]) * 256 + b[3]
  }

  lemma Be32RoundTrip(n: nat)
    requires n < Two32
    ensures ReadBe32(Be32(n)) == n
  {
    var m1 := n / 256;
    var m2 := m1 / 256;
    assert n == m1 * 256 + n % 256;
    assert m1 == m2 * 256 + m1 % 256;
    assert m2 == (m2 / 256) * 256 + m2 % 256;
  }

  /** `writeUInt16LE(n)`: the two bytes of `n`, least significant first. */
  function Le16(n: nat): (r: seq<Byte>)
    requires n < Two16
    ensures |r| == 2
  {
    [n % 256, n / 256]
  }

  function ReadLe16(b: seq<Byte>): (n: nat)
    requires |b| == 2
    ensures n < Two16
  {
    b[1] as int * 256 + b[0]
  }

  lemma Le16RoundTrip(n: nat)
    requires n < Two16
    ensures ReadLe16(Le16(n)) == n
  {
  }

  /** `writeUInt32LE(n)`: the four bytes of `n`, least significant first. */
  function Le32(n: nat): (r: seq<Byte>)
    requires n < Two32
    ensures |r| == 4
  {
    var m1 := n / 256;
    var m2 := m1 / 256;
    [n % 256, m1 % 256, m2 % 256, m2 / 256]
  }

  function ReadLe32(b: seq<Byte>): (n: nat)
    requires |b| == 4
    ensures n < Two32
  {
    ((b[3] as int * 256 + b[2]) * 256 + b[1]) * 256 + b[0]
  }

  lemma Le32RoundTrip(n: nat)
    requires n < Two32
    ensures ReadLe32(Le32(n)) == n
  {
    var m1 := n / 256;
    var m2 := m1 / 256;
    assert n == m1 * 256 + n % 256;
    assert m1 == m2 * 256 + m1 % 256;
    assert m2 == (m2 / 256) * 256 + m2 % 256;
  }

  /** `buf.writeUInt32BE(n, offset)`: four bytes at `offset`, the rest of the buffer untouched. */
  method WriteUInt32BE(buf: array<Byte>, n: nat, offset: nat)
    requires n < Two32 && offset + 4 <= buf.Length
    modifies buf
    ensures buf[..] == old(buf[..offset]) + Be32(n) + old(buf[offset + 4..])
  {
    var b := Be32(n);
    buf[offset] := b[0];
    buf[offset + 1] := b[1];
    buf[offset + 2] := b[2];
    buf[offset + 3] := b[3];
  }

  /** `buf.writeUInt16LE(n, offset)`. */
  method WriteUInt16LE(buf: array<Byte>, n: nat, offset: nat)
    requires n < Two16 && offset + 2 <= buf.Length
    modifies buf
    ensures buf[..] == old(buf[..offset]) + Le16(n) + old(buf[offset + 2..])
  {
    var b := Le16(n);
    buf[offset] := b[0];
    buf[offset + 1] := b[1];
  }

  /** `buf.writeUInt32LE(n, offset)`. */
  method WriteUInt32LE(buf: array<Byte>, n: nat, offset: nat)
    requires n < Two32 && offset + 4 <= buf.Length
    modifies buf
    ensures buf[..] == old(buf[..offset]) + Le32(n) + old(buf[offset + 4..])
  {
    var b := Le32(n);
    buf[offset] := b[0];
    buf[offset + 1] := b[1];
    buf[offset + 2] := b[2];
    buf[offset + 3] := b[3];
  }
}
