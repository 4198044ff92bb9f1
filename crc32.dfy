/**
 * The CRC-32 of ISO 3309 / ITU-T V.42 that zlib.crc32 computes, written
 * bit by bit as in section 8 of RFC 1952 (reflected polynomial 0xEDB88320,
 * register preset to all ones and complemented at the end).
 */
module Crc32 {
  import opened Bytes

  const POLYNOMIAL: bv32 := 0xEDB8_8320

  /** k rounds of the shift-and-xor division step. */
  function Shift(c: bv32, k: nat): bv32
    decreases k
  {
    if k == 0 then c
    else Shift(if c & 1 == 1 then (c >> 1) ^ POLYNOMIAL else c >> 1, k - 1)
  }

  /** The register after feeding one byte. */
  function UpdateByte(c: bv32, b: byte): bv32
  {
    Shift(c ^ (b as int as bv32), 8)
  }

  /** The register after feeding a byte string, first byte first. */
  function Update(c: bv32, data: seq<byte>): bv32
    decreases |data|
  {
    if data == [] then c else Update(UpdateByte(c, data[0]), data[1..])
  }

  /** zlib.crc32(data) & 0xffffffff. */
  function Crc32(data: seq<byte>): (r: nat)
    ensures r < U32_LIMIT
  {
    (Update(0xFFFF_FFFF, data) ^ 0xFFFF_FFFF) as int
  }

  /**
   * Feeding a byte string in two pieces gives the register that feeding it
   * whole gives, so a checksum over header ‖ key ‖ value can be taken piecewise.
   */
  lemma {:induction false} UpdateAppend(c: bv32, a: seq<byte>, b: seq<byte>)
    ensures Update(c, a + b) == Update(Update(c, a), b)
    decreases |a|
  {
    if a == [] {
      assert a + b == b;
    } else {
      assert (a + b)[1..] == a[1..] + b;
      UpdateAppend(UpdateByte(c, a[0]), a[1..], b);
    }
  }

  lemma UpdateFirst(c: bv32, d: seq<byte>, next: bv32)
    requires d != [] && UpdateByte(c, d[0]) == next
    ensures Update(c, d) == Update(next, d[1..])
  {
  }

  /** The register through digits 1 to 3 of "123456789". */
  lemma CheckRegisters0(d: seq<byte>)
    requires |d| >= 3 && d[0] == 0x31 && d[1] == 0x32 && d[2] == 0x33
    ensures Update(0xFFFF_FFFF, d) == Update(0x77B7_9C2D, d[3..])
  {
    UpdateFirst(0xFFFF_FFFF, d[0..], 0x7C23_1048);
    UpdateFirst(0x7C23_1048, d[1..], 0xB0AC_BB32);
    UpdateFirst(0xB0AC_BB32, d[2..], 0x77B7_9C2D);
    assert d[1..][1..] == d[2..] && d[2..][1..] == d[3..];
  }

  /** The register through digits 4 to 6 of "123456789". */
  lemma CheckRegisters1(d: seq<byte>)
    requires |d| >= 3 && d[0] == 0x34 && d[1] == 0x35 && d[2] == 0x36
    ensures Update(0x77B7_9C2D, d) == Update(0xF68D_2C9E, d[3..])
  {
    UpdateFirst(0x77B7_9C2D, d[0..], 0x641C_1F5C);
    UpdateFirst(0x641C_1F5C, d[1..], 0x340A_C5E3);
    UpdateFirst(0x340A_C5E3, d[2..], 0xF68D_2C9E);
    assert d[1..][1..] == d[2..] && d[2..][1..] == d[3..];
  }

  /** The register through digits 7 to 9 of "123456789". */
  lemma CheckRegisters2(d: seq<byte>)
    requires |d| >= 3 && d[0] == 0x37 && d[1] == 0x38 && d[2] == 0x39
    ensures Update(0xF68D_2C9E, d) == Update(0x340B_C6D9, d[3..])
  {
    UpdateFirst(0xF68D_2C9E, d[0..], 0xAFFC_9660);
    UpdateFirst(0xAFFC_9660, d[1..], 0x651F_2550);
    UpdateFirst(0x651F_2550, d[2..], 0x340B_C6D9);
    assert d[1..][1..] == d[2..] && d[2..][1..] == d[3..];
  }

  /** The standard check value of this CRC: the nine ASCII digits "123456789". */
  lemma CheckValue(d: seq<byte>)
    requires d == [0x31, 0x32, 0x33, 0x34, 0x35, 0x36, 0x37, 0x38, 0x39]
    ensures Crc32(d) == 0xCBF4_3926
  {
    CheckRegisters0(d);
    CheckRegisters1(d[3..]);
    CheckRegisters2(d[6..]);
    assert d[3..][3..] == d[6..] && d[6..][3..] == [];
    var register := Update(0xFFFF_FFFF, d);
    assert register == 0x340B_C6D9;
    assert register ^ 0xFFFF_FFFF == 0xCBF4_3926;
  }
}
