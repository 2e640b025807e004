/**
 * The CRC-32 of section 5.5 of the PNG specification (ISO/IEC 15948), as both icon
 * scripts compute it: a 256-entry table built from the reflected polynomial
 * 0xEDB88320, then a register loop that starts at 0xFFFFFFFF, consumes one byte per
 * table lookup, and is inverted at the end. The specification functions below follow
 * that table-driven register; the table itself is defined by the bit-by-bit rounds.
 *
 * JavaScript's bit operators act on 32-bit patterns (`>>>` reads its operand unsigned),
 * and the table is a `Uint32Array`, so `bv32` describes every intermediate value exactly.
 */
module Crc {
  const Polynomial: bv32 := 0xEDB8_8320

  /** One round of the reflected register: shift right, folding in the polynomial when the bit shifted out is 1. */
  function Round(c: bv32): bv32 {
    if c & 1 == 1 then Polynomial ^ (c >> 1) else c >> 1
  }

  function Rounds(c: bv32, k: nat): bv32
    decreases k
  {
    if k == 0 then c else Rounds(Round(c), k - 1)
  }

  /** Entry `n` of the table: `n` run through eight rounds. */
  function TableEntry(n: bv8): bv32 {
    Rounds(n as bv32, 8)
  }

  /** The whole table, entry `n` at index `n`. */
  function Table(): (t: seq<bv32>)
    ensures |t| == 256
  {
    seq(256, n requires 0 <= n < 256 => TableEntry(n as bv8))
  }

  /** The table fill: for each index, eight rounds of the register in an inner loop. */
  method BuildTable() returns (t: array<bv32>)
    ensures t[..] == Table()
  {
    t := new bv32[256];
    var n := 0;
    while n < 256
      invariant 0 <= n <= 256
      invariant forall i :: 0 <= i < n ==> t[i] == TableEntry(i as bv8)
    {
      var c: bv32 := n as bv32;
      var k := 0;
      while k < 8
        invariant 0 <= k <= 8
        invariant Rounds(c, 8 - k) == TableEntry(n as bv8)
      {
        c := Round(c);
        k := k + 1;
      }
      t[n] := c;
      n := n + 1;
    }
  }

  /** Two known entries of the table of section 5.5: index 1, and index 128, which is the polynomial itself. */
  lemma KnownTableEntries()
    ensures TableEntry(1) == 0x7707_3096
    ensures TableEntry(128) == Polynomial
  {
  }

  // ---------------------------------------------------------------------------------
  // The register loop
  // ---------------------------------------------------------------------------------

  /** The table index for byte `b` and register `c`: the low byte of `c ^ b`. */
  function Index(c: bv32, b: bv8): bv8 {
    ((c ^ b as bv32) & 0xFF) as bv8
  }

  /** One byte into the register: the table entry at the index, XORed with `c` shifted right by 8. */
  function TableStep(t: seq<bv32>, c: bv32, b: bv8): bv32
    requires |t| == 256
  {
    t[Index(c, b) as int] ^ (c >> 8)
  }

  /** The register after consuming `data`, in order, from `c`, with table `t`. */
  function Register(t: seq<bv32>, c: bv32, data: seq<bv8>): bv32
    requires |t| == 256
    decreases |data|
  {
    if data == [] then c else Register(t, TableStep(t, c, data[0]), data[1..])
  }

  /** The final step of both scripts: every bit of the register inverted (`>>> 0` only rereads it unsigned). */
  function Inverted(c: bv32): bv32 {
    c ^ 0xFFFF_FFFF
  }

  /** `>>> 0`: the register's 32 bits read as an unsigned number. */
  function Unsigned(c: bv32): (n: nat)
    ensures n < 0x1_0000_0000 && n as bv32 == c
  {
    c as int
  }

  /** The CRC of `data` with table `t`: the register started at all ones, inverted at the end. */
  function Crc32With(t: seq<bv32>, data: seq<bv8>): bv32
    requires |t| == 256
  {
    Inverted(Register(t, 0xFFFF_FFFF, data))
  }

  /** The CRC of `data`, with the table of eight-round entries. */
  function Crc32(data: seq<bv8>): bv32 {
    Crc32With(Table(), data)
  }

  /** A CRC can be computed piecewise: the register after `a + b` is the register after `a`, continued over `b`. */
  lemma {:induction false} RegisterConcat(t: seq<bv32>, c: bv32, a: seq<bv8>, b: seq<bv8>)
    requires |t| == 256
    ensures Register(t, c, a + b) == Register(t, Register(t, c, a), b)
    decreases |a|
  {
    if a != [] {
      assert (a + b)[0] == a[0];
      assert (a + b)[1..] == a[1..] + b;
      RegisterConcat(t, TableStep(t, c, a[0]), a[1..], b);
    } else {
      assert a + b == b;
    }
  }

  /** Appending one byte is one more table step before the final inversion. */
  lemma Crc32Append(data: seq<bv8>, b: bv8)
    ensures Crc32(data + [b]) == Inverted(TableStep(Table(), Register(Table(), 0xFFFF_FFFF, data), b))
  {
    RegisterConcat(Table(), 0xFFFF_FFFF, data, [b]);
  }

  /** The CRC of nothing is 0. */
  lemma Crc32Empty()
    ensures Crc32([]) == 0
  {
  }

  /** The CRC every `IEND` chunk carries: the CRC of the four type bytes `I`, `E`, `N`, `D`. */
  lemma IendCrc()
    ensures Crc32([0x49, 0x45, 0x4E, 0x44]) == 0xAE42_6082
  {
    IendFirstHalf();
    IendSecondHalf();
    var first: seq<bv8>, second: seq<bv8> := [0x49, 0x45], [0x4E, 0x44];
    RegisterConcat(Table(), 0xFFFF_FFFF, first, second);
    assert first + second == [0x49, 0x45, 0x4E, 0x44];
  }

  lemma IendFirstHalf()
    ensures Register(Table(), 0xFFFF_FFFF, [0x49, 0x45]) == 0x992B_AC53
  {
    var t := Table();
    assert TableStep(t, 0xFFFF_FFFF, 0x49) == 0x22FD_E946 by { assert t[0xB6] == TableEntry(0xB6); }
    assert TableStep(t, 0x22FD_E946, 0x45) == 0x992B_AC53 by { assert t[0x03] == TableEntry(0x03); }
    var d: seq<bv8> := [0x49, 0x45];
    assert d[1..][1..] == [];
  }

  lemma IendSecondHalf()
    ensures Register(Table(), 0x992B_AC53, [0x4E, 0x44]) == 0x51BD_9F7D
  {
    var t := Table();
    assert TableStep(t, 0x992B_AC53, 0x4E) == 0x639F_4775 by { assert t[0x1D] == TableEntry(0x1D); }
    assert TableStep(t, 0x639F_4775, 0x44) == 0x51BD_9F7D by { assert t[0x31] == TableEntry(0x31); }
    var d: seq<bv8> := [0x4E, 0x44];
    assert d[1..][1..] == [];
  }

  /** One turn of either script's loop: the table lookup extends the register by one byte. */
  lemma LookupStep(t: seq<bv32>, c: bv32, prefix: seq<bv8>, b: bv8)
    requires |t| == 256
    requires c == Register(t, 0xFFFF_FFFF, prefix)
    ensures t[Index(c, b) as int] ^ (c >> 8) == Register(t, 0xFFFF_FFFF, prefix + [b])
  {
    RegisterConcat(t, 0xFFFF_FFFF, prefix, [b]);
    assert [b][1..] == [];
  }

  /** The favicon script's `crc32(buf)`: the register loop over the whole buffer. */
  method Crc32Table(table: array<bv32>, buf: seq<bv8>) returns (crc: bv32)
    requires table.Length == 256
    ensures crc == Crc32With(table[..], buf)
  {
    var c: bv32 := 0xFFFF_FFFF;
    for i := 0 to |buf|
      invariant c == Register(table[..], 0xFFFF_FFFF, buf[..i])
    {
      LookupStep(table[..], c, buf[..i], buf[i]);
      assert buf[..i + 1] == buf[..i] + [buf[i]];
      c := table[Index(c, buf[i]) as int] ^ (c >> 8);
    }
    assert buf[..|buf|] == buf;
    crc := Inverted(c);
  }

  /**
   * The icon script's `crc32(buf, start, end)`: the same loop over the bytes from `start`
   * up to, not including, `end`. Its defaults, `0` and the buffer's length, give the CRC
   * of the whole buffer; a range that is empty or reversed runs no step and gives 0.
   */
  method Crc32Range(table: array<bv32>, buf: array<bv8>, start: nat, end: nat) returns (crc: bv32)
    requires table.Length == 256
    requires end <= buf.Length
    ensures start <= end ==> crc == Crc32With(table[..], buf[start..end])
    ensures start == 0 && end == buf.Length ==> crc == Crc32With(table[..], buf[..])
    ensures end <= start ==> crc == 0
  {
    var c: bv32 := 0xFFFF_FFFF;
    var i := start;
    while i < end
      invariant start <= end ==> start <= i <= end && c == Register(table[..], 0xFFFF_FFFF, buf[start..i])
      invariant end < start ==> i == start && c == 0xFFFF_FFFF
    {
      LookupStep(table[..], c, buf[start..i], buf[i]);
      assert buf[start..i + 1] == buf[start..i] + [buf[i]];
      c := table[Index(c, buf[i]) as int] ^ (c >> 8);
      i := i + 1;
    }
    crc := Inverted(c);
    assert buf[0..buf.Length] == buf[..];
  }
}
