/** The bootloader's description of the device (`BlInfo` in util.py): the
    flash bounds, the erase geometry, the write granularity and the largest
    payload one command may carry, decoded from the 24-byte INFO reply. */
module DeviceInfo {
  import opened Bytes
  import opened Errors

  const INFO_LENGTH: nat := 24

  datatype BlInfo = BlInfo(
    flashStart: u32,
    flashSize: u32,
    eraseStart: u32,
    eraseSize: u32,
    writeSize: u32,
    maxDataLen: u32)
  {
    /** First address past the flash. */
    function FlashEnd(): int { flashStart + flashSize }

    /** The erase granularity. */
    function SectorSize(): u32 { eraseSize }
  }

  /** The INFO reply the bootloader sends for `info`: the six fields, in
      declaration order, each as four little-endian bytes. */
  function Encode(info: BlInfo): (r: seq<byte>)
    ensures |r| == INFO_LENGTH
  {
    LE32(info.flashStart) + LE32(info.flashSize) + LE32(info.eraseStart)
      + LE32(info.eraseSize) + LE32(info.writeSize) + LE32(info.maxDataLen)
  }

  /** `BlInfo.from_bytes`: any reply that is not exactly 24 bytes long is
      refused; otherwise the six fields are read in order. */
  function FromBytes(data: seq<byte>): (r: Result<BlInfo>)
    ensures r.Err? <==> |data| != INFO_LENGTH
    ensures r.Err? ==> r.error == InfoLength(|data|)
    ensures r.Ok? ==> Encode(r.value) == data
  {
    if |data| != INFO_LENGTH then Err(InfoLength(|data|))
    else
      var info := BlInfo(
        FromLE32(data[0..4]), FromLE32(data[4..8]), FromLE32(data[8..12]),
        FromLE32(data[12..16]), FromLE32(data[16..20]), FromLE32(data[20..24]));
      EncodeOfFields(data, info);
      Ok(info)
  }

  lemma EncodeOfFields(data: seq<byte>, info: BlInfo)
    requires |data| == INFO_LENGTH
    requires info == BlInfo(
        FromLE32(data[0..4]), FromLE32(data[4..8]), FromLE32(data[8..12]),
        FromLE32(data[12..16]), FromLE32(data[16..20]), FromLE32(data[20..24]))
    ensures Encode(info) == data
  {
    LE32OfFromLE32(data[0..4]);
    LE32OfFromLE32(data[4..8]);
    LE32OfFromLE32(data[8..12]);
    LE32OfFromLE32(data[12..16]);
    LE32OfFromLE32(data[16..20]);
    LE32OfFromLE32(data[20..24]);
    assert data == data[0..4] + data[4..8] + data[8..12] + data[12..16] + data[16..20] + data[20..24];
  }

  /** Decoding the reply the device sends gives back the device's fields. */
  lemma FromBytesOfEncode(info: BlInfo)
    ensures FromBytes(Encode(info)) == Ok(info)
  {
    var d := Encode(info);
    assert d[0..4] == LE32(info.flashStart);
    assert d[4..8] == LE32(info.flashSize);
    assert d[8..12] == LE32(info.eraseStart);
    assert d[12..16] == LE32(info.eraseSize);
    assert d[16..20] == LE32(info.writeSize);
    assert d[20..24] == LE32(info.maxDataLen);
    FromLE32OfLE32(info.flashStart);
    FromLE32OfLE32(info.flashSize);
    FromLE32OfLE32(info.eraseStart);
    FromLE32OfLE32(info.eraseSize);
    FromLE32OfLE32(info.writeSize);
    FromLE32OfLE32(info.maxDataLen);
  }

  /** The reply of a device with 1 MiB of flash at 0x10000000, 4 KiB sectors,
      256-byte pages and 1 KiB payloads. */
  lemma ExampleInfo()
    ensures var r := FromBytes([0x00, 0x00, 0x00, 0x10, 0x00, 0x00, 0x10, 0x00,
                                0x00, 0x00, 0x00, 0x10, 0x00, 0x10, 0x00, 0x00,
                                0x00, 0x01, 0x00, 0x00, 0x00, 0x04, 0x00, 0x00]);
      && r == Ok(BlInfo(0x1000_0000, 0x0010_0000, 0x1000_0000, 0x1000, 0x100, 0x400))
      && r.value.FlashEnd() == 0x1010_0000
      && r.value.SectorSize() == 0x1000
  {
    var info := BlInfo(0x1000_0000, 0x0010_0000, 0x1000_0000, 0x1000, 0x100, 0x400);
    FromBytesOfEncode(info);
    assert Encode(info) == [0x00, 0x00, 0x00, 0x10, 0x00, 0x00, 0x10, 0x00,
                            0x00, 0x00, 0x00, 0x10, 0x00, 0x10, 0x00, 0x00,
                            0x00, 0x01, 0x00, 0x00, 0x00, 0x04, 0x00, 0x00];
  }

  /** `a` is one of the addresses of the half-open range [lo, lo + size). */
  predicate Within(a: int, lo: int, size: int)
  {
    lo <= a < lo + size
  }

  /** Every address of [lo, lo + size) lies in [outer, outer + outerSize). */
  ghost predicate Contained(lo: int, size: int, outer: int, outerSize: int)
  {
    forall a :: Within(a, lo, size) ==> Within(a, outer, outerSize)
  }

  /** `_is_in_flash`. */
  predicate IsInFlash(addr: int, size: int, info: BlInfo)
  {
    addr >= info.flashStart && addr + size <= info.FlashEnd()
  }

  /** A non-empty range passes `_is_in_flash` exactly when every one of its
      addresses lies in [flash_start, flash_end). */
  lemma IsInFlashAddresses(addr: int, size: int, info: BlInfo)
    requires size > 0
    ensures IsInFlash(addr, size, info) <==> Contained(addr, size, info.flashStart, info.flashSize)
  {
    if Contained(addr, size, info.flashStart, info.flashSize) {
      assert Within(addr, addr, size);
      assert Within(addr + size - 1, addr, size);
    }
  }
}
