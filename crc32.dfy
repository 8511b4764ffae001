/** `zlib.crc32`: the CRC-32 of IEEE 802.3 (reflected polynomial 0xEDB88320,
    initial value and final mask 0xFFFFFFFF), computed bit by bit.  The rest
    of the model only ever compares two CRC values, so apart from the
    example below no proof looks inside this definition. */
module Crc32 {
  import opened Bytes

  const POLYNOMIAL: bv32 := 0xEDB8_8320

  /** Shifts `n` bits out of the register. */
  function ShiftBits(c: bv32, n: nat): bv32
    decreases n
  {
    if n == 0 then c
    else ShiftBits(if c & 1 == 1 then (c >> 1) ^ POLYNOMIAL else c >> 1, n - 1)
  }

  /** Feeds `data` into the register, first byte first. */
  function Update(c: bv32, data: seq<byte>): bv32
    decreases |data|
  {
    if data == [] then c else Update(ShiftBits(c ^ (data[0] as bv32), 8), data[1..])
  }

  function Checksum(data: seq<byte>): u32
  {
    (Update(0xFFFF_FFFF, data) ^ 0xFFFF_FFFF) as int
  }

  /** The CRC-32 of nothing is 0, and that of "a" is 0xe8b7be43. */
  lemma ExampleChecksum()
    ensures Checksum([]) == 0
    ensures Checksum([0x61]) == 0xE8B7_BE43
  {
    assert ShiftBits(0xFFFF_FFFF ^ 0x61, 8) == 0x1748_41BC;
    assert [0x61][1..] == [];
  }
}
