# rp2040_flashtool in Dafny

rp2040_flashtool is a command-line tool that talks to a serial bootloader on
an RP2040 board. It finds the board by sending `SYNC` on every serial port
until one answers `SYNCPICO`. It asks the bootloader for its description
(`INFO`: flash start and size, erase start and sector size, write size, largest
payload). It then reads, erases or writes flash in chunks, seals an image with
its CRC-32 (`SEAL`) and jumps to it (`GOGO`). Every command is four ASCII
bytes followed by little-endian 32-bit arguments. The device echoes the
command, answers `OKOK` and sends its reply. The tool retries every chunk up
to three times when the reply is late, has the wrong size or has the wrong
CRC. Images come from flat `.bin` files placed at a given address, or from ELF
files. For an ELF file, the sections of the program headers that lie in flash
are collected, sorted by physical address and merged into one zero-filled
buffer. The image is padded to the write size. Address and length options
accept decimal, hexadecimal and binary text.

The model keeps the program's structure, one module per component:

- `Bytes`: bytes, 32-bit values, little-endian encoding, Python slices and `&`.
- `Errors`: the `Error` values that stand for `exit(1)` and the exceptions.
- `Crc32`: `zlib.crc32`.
- `DeviceInfo`: `BlInfo` and `_is_in_flash`.
- `ElfImage`: `load_elf`.
- `ImageFile`: `pad_len` and `load_file`.
- `Protocol`: `send_cmd`, `sync` and `info`.
- `Transfer`: `_read`, `_erase` and `_write`, and the chunk-and-retry loops of `read`, `erase` and `write`.
- `Flasher`: `_seal`, `_go`, `flash` and the connection step of the commands.
- `IntegerOption`: `parse_integer`.

Each loop of the source is a `method` with a `while` or `for` loop. It is
proved equal to a specification function, and the properties are lemmas about
that function. The one library loop, `list.sort`, is the function
`SortByPaddr`.

The world outside the program is handed in as values:

- A `Link` is the sequence of `Exchange`s that the successive `send_cmd` calls
  meet at the port. An exchange is either the blocks `read_all()` returns
  before the deadline, or a `SerialException`.
- A `Prober` gives the reply of each sync attempt at each port.
- An `InputFile` holds a path, its bytes, and the program headers and sections
  an ELF reader reports.

Commands thread a log of the frames sent so far. The position of the next
exchange is the length of that log.

## Model

| member | source | states |
|---|---|---|
| Bytes.Zeros | rp2040_flashtool/util.py:121-124 | `bytes(n)` is n bytes, all zero |
| Bytes.LE32 | rp2040_flashtool/cli.py:89-92 | the little-endian encoding of a 32-bit value is four bytes |
| Bytes.FromLE32OfLE32 | rp2040_flashtool/util.py:29-34 | `FromLE32`, decoding four little-endian bytes, undoes encoding |
| Bytes.LE32OfFromLE32 | rp2040_flashtool/util.py:29-34 | encoding undoes decoding: every 4-byte string is the encoding of its value |
| Bytes.LE32Injective | rp2040_flashtool/cli.py:98-100 | equal encodings mean equal values, so comparing encoded CRCs compares the CRCs |
| Bytes.Slice | rp2040_flashtool/cli.py:63 | Python's clipped slice: the plain slice when in bounds, length `max(0, min(hi,n) - min(lo,n))` |
| Bytes.BitAndLowBits | rp2040_flashtool/cli.py:164 | `a & (2^k - 1)` is `a % 2^k` for non-negative `a` |
| Bytes.AndMask | rp2040_flashtool/cli.py:164 | Python's `x & mask`: the mask -1 keeps `x`; a 32-bit mask gives a value between 0 and the mask |
| Bytes.BitAndBound | rp2040_flashtool/cli.py:164 | an and never exceeds its second operand |
| Bytes.LowMask | rp2040_flashtool/cli.py:164 | for any sign of `x`, Python's `x & (2^k - 1)` with k < 32 is `x % 2^k` |
| Crc32.ExampleChecksum | rp2040_flashtool/cli.py:98 | `Checksum`, `zlib.crc32`, of nothing is 0 and of "a" is 0xe8b7be43, the values of the IEEE 802.3 CRC-32 |
| DeviceInfo.Encode | rp2040_flashtool/util.py:29-34 | the INFO reply of a device is 24 bytes |
| DeviceInfo.FromBytes | rp2040_flashtool/util.py:22-37 | refuses exactly the replies that are not 24 bytes, with their length; an accepted reply is the encoding of the decoded fields |
| DeviceInfo.EncodeOfFields | rp2040_flashtool/util.py:29-37 | the six fields read at offsets 0,4,…,20 re-encode to the reply |
| DeviceInfo.FromBytesOfEncode | rp2040_flashtool/util.py:22-37 | decoding a device's reply gives back its six fields in order |
| DeviceInfo.ExampleInfo | rp2040_flashtool/util.py:14-37 | a concrete 1 MiB device: its decoded fields, flash end and sector size |
| DeviceInfo.IsInFlashAddresses | rp2040_flashtool/util.py:52-53 | a non-empty range passes `_is_in_flash` (`IsInFlash`) iff all its addresses lie in the flash |
| ElfImage.IsInHeaderAddresses | rp2040_flashtool/util.py:55-56 | a non-empty range passes `_is_in_header` (`IsInHeader`) iff all its addresses lie in the header's virtual range |
| ElfImage.CollectChunks | rp2040_flashtool/util.py:64-90 | the nested header/section loops append exactly the chunks of `Collected` |
| ElfImage.SectionChunksMembers | rp2040_flashtool/util.py:80-90 | one header contributes exactly its non-empty in-range sections, each at `p_paddr + (sh_addr - p_vaddr)` |
| ElfImage.CollectedMembers | rp2040_flashtool/util.py:68-90 | a chunk is collected iff some in-flash header and some non-empty section inside it produce it |
| ElfImage.Insert | rp2040_flashtool/util.py:92 | insertion adds exactly one element |
| ElfImage.InsertSorted | rp2040_flashtool/util.py:92 | insertion keeps the list sorted by address |
| ElfImage.SortByPaddr | rp2040_flashtool/util.py:92 | the sorted list is sorted by `paddr` and a permutation of the input |
| ElfImage.InsertAtPaddr | rp2040_flashtool/util.py:92 | insertion keeps the order of the chunks at each address |
| ElfImage.SortByPaddrStable | rp2040_flashtool/util.py:92 | the sort is stable: chunks at one address keep their collection order |
| ElfImage.MergeChunks | rp2040_flashtool/util.py:94-101 | the merge loop computes `Merge`; an empty list is the `chunks[0]` error |
| ElfImage.PaintChunks | rp2040_flashtool/util.py:97-100 | the loop of slice assignments computes `Paint` |
| ElfImage.PaintStep | rp2040_flashtool/util.py:97-100 | painting one more chunk is one more slice assignment |
| ElfImage.LoadElf | rp2040_flashtool/util.py:63-101 | collection, sort and merge compute `LoadedElf` |
| ElfImage.LastCover | rp2040_flashtool/util.py:97-100 | the index of the last chunk covering the offset: it covers it and no later chunk does; -1 exactly when no chunk covers it |
| ElfImage.SliceAssignAt | rp2040_flashtool/util.py:100 | `SliceAssign`, `buf[s:s+n] = d`, keeps the bytes before `s` and after `s+n`, places `d`, and may grow the buffer |
| ElfImage.PaintAt | rp2040_flashtool/util.py:96-100 | the painted buffer's length is the furthest chunk end; each byte comes from the last chunk covering it, else the buffer |
| ElfImage.MergeAt | rp2040_flashtool/util.py:94-101 | the image starts at the lowest address, spans to the furthest end, and holds the last covering chunk's byte or zero |
| ElfImage.MergeLength | rp2040_flashtool/util.py:94-96 | when no chunk ends past the last one, the image is exactly `max_addr - min_addr` long |
| ElfImage.LoadedElfAt | rp2040_flashtool/util.py:63-101 | `load_elf` fails iff nothing was collected; otherwise it starts at the least collected address, with the bytes of the last covering sorted chunk |
| ElfImage.ExampleImage | rp2040_flashtool/util.py:63-101 | two sections "AA" and "BB" four bytes apart give "AA\0\0BB" |
| ElfImage.ExampleChunks | rp2040_flashtool/util.py:80-90 | the chunks those two sections give |
| ElfImage.ExampleMerge | rp2040_flashtool/util.py:94-101 | the gap between them is zero-filled |
| ImageFile.PadLen | rp2040_flashtool/util.py:103-105 | the padding is below `align`, reaches a multiple of it, and is zero iff already aligned |
| ImageFile.PadLenLeast | rp2040_flashtool/util.py:103-105 | no shorter padding reaches a multiple |
| ImageFile.ExamplePadLen | rp2040_flashtool/util.py:103-105 | 10 pads by 2 to 4; 8 needs none |
| ImageFile.LastDot | rp2040_flashtool/util.py:109 | the index of the last '.' of the name, or -1 when it has none |
| ImageFile.Lower | rp2040_flashtool/util.py:109 | lower-casing keeps the length and maps each letter |
| ImageFile.SuffixOfAppended | rp2040_flashtool/util.py:109 | appending an extension to a non-empty path makes it the `Suffix` of its `Name` |
| ImageFile.HiddenHasNoSuffix | rp2040_flashtool/util.py:109 | a name that is only an extension ("`.elf`") has no suffix |
| ImageFile.KindOfExtension | rp2040_flashtool/util.py:109-119 | `KindOf`: `.elf`/`.bin` in any case choose the loader; anything else is unsupported |
| ImageFile.FileImage | rp2040_flashtool/util.py:107-125 | the image is the loaded data followed by `pad_len` zeros and is a multiple of the write size; `.bin` goes to the given address, or fails without one; other suffixes fail |
| ImageFile.LoadFile | rp2040_flashtool/util.py:107-125 | `load_file` computes `FileImage` |
| ImageFile.ElfFileImage | rp2040_flashtool/util.py:109-110 | for ELF the given address is ignored; loading fails iff nothing was collected or the write size is 0; the image starts at the least collected address |
| Protocol.ToLE32 | rp2040_flashtool/cli.py:89-92 | `to_bytes(4)` succeeds iff the value fits in 32 bits, and decodes back to it |
| Protocol.SpanArgsDecode | rp2040_flashtool/cli.py:89-92 | the address-and-size prefix exists iff both fit in 32 bits, and it decodes to both |
| Protocol.SpanArgsInjective | rp2040_flashtool/cli.py:139-142 | equal prefixes mean equal address and size |
| Protocol.AcknowledgedMeans | rp2040_flashtool/cli.py:63 | the exit test holds iff `OKOK` sits right after the echo and the reply is complete |
| Protocol.Scan | rp2040_flashtool/cli.py:59-70 | a completed scan returns at least `resp_size` bytes; a failed one is a timeout |
| Protocol.SendCmd | rp2040_flashtool/cli.py:47-70 | the scanning loop computes `Transact`; a broken port is `PortFailure` |
| Protocol.ScanResult | rp2040_flashtool/cli.py:59-70 | success iff the exit test holds after some block, returning everything after the marker at the first such block; otherwise a timeout carrying all bytes received |
| Protocol.ScanOneBlock | rp2040_flashtool/cli.py:53-70 | echo, `OKOK` and the reply in one block yield exactly the reply |
| Protocol.SyncPortsFirst | rp2040_flashtool/cli.py:20-45 | `sync` succeeds iff some port answered among its five attempts, returns the first such port, and otherwise fails with `NoDevice` |
| Protocol.SyncGivenPort | rp2040_flashtool/cli.py:23-26 | a given port is the only one tried |
| Protocol.Sync | rp2040_flashtool/cli.py:20-45 | the two nested loops compute `SyncPorts` |
| Protocol.InfoOnce | rp2040_flashtool/cli.py:72-85 | no frame without a device, otherwise exactly one INFO frame; success iff that reply is 24 bytes, which are the device's fields; longer replies are refused |
| Protocol.Info | rp2040_flashtool/cli.py:72-85 | `info` computes `InfoSpec` |
| Transfer.ReadAttemptOk | rp2040_flashtool/cli.py:87-103 | a read chunk succeeds iff READ returns `size` bytes and CRCC returns their CRC-32; out-of-range arguments fail before sending |
| Transfer.WriteAttemptOk | rp2040_flashtool/cli.py:181-193 | a write chunk succeeds iff WRIT's reply is the CRC-32 of the bytes sent |
| Transfer.AttemptFacts | rp2040_flashtool/cli.py:87-193 | an attempt appends at most two frames, all for its chunk; a read returns `size` bytes |
| Transfer.AttemptErrors | rp2040_flashtool/cli.py:87-193 | an attempt fails only with a caught error, a port failure or an overflow |
| Transfer.Retry | rp2040_flashtool/cli.py:127-134 | between one and `tries` attempts are made |
| Transfer.RetryLog | rp2040_flashtool/cli.py:127-134 | retrying only appends frames of the same chunk; a success used an answered exchange |
| Transfer.RetryErrors | rp2040_flashtool/cli.py:127-134 | only uncaught errors escape early; exhaustion comes after all attempts failed with caught errors |
| Transfer.RetryExhausts | rp2040_flashtool/cli.py:127-134 | when every attempt fails with a caught error, the loop gives up with `RetriesExhausted` after exactly `tries` attempts |
| Transfer.AttemptConfirmed | rp2040_flashtool/cli.py:87-193 | a successful attempt ended with its confirmation: READ answered with `size` bytes and CRCC with their CRC-32; ERAS acknowledged; WRIT answered with the CRC-32 of the chunk |
| Transfer.RetryConfirmed | rp2040_flashtool/cli.py:127-134 | a chunk whose retry loop succeeds ends with a confirmed attempt, and the bytes returned are those the device sent |
| Transfer.RetryConfirming | rp2040_flashtool/cli.py:127-134 | the retry loop of each operation confirms every chunk it returns |
| Transfer.ReadChunk | rp2040_flashtool/cli.py:87-103 | `_read` computes `ReadAttempt` |
| Transfer.EraseChunk | rp2040_flashtool/cli.py:137-143 | `_erase` computes `EraseAttempt` |
| Transfer.WriteChunk | rp2040_flashtool/cli.py:181-193 | `_write` computes `WriteAttempt` |
| Transfer.RetryChunk | rp2040_flashtool/cli.py:127-134 | the `for … else: raise` loop computes `Retry` with three attempts |
| Transfer.RetrySound | rp2040_flashtool/cli.py:127-134 | the retry loop of each operation keeps the laws the chunk loop relies on |
| Transfer.RunChunks | rp2040_flashtool/cli.py:125-135 | the `while idx < length` loop computes `Run` |
| Transfer.PlanShape | rp2040_flashtool/cli.py:125-135 | the chunks tile the range in order, each `min(cap, length - idx)` long and never empty |
| Transfer.PlanTotal | rp2040_flashtool/cli.py:125-135 | the chunks cover exactly what is left |
| Transfer.PlanCount | rp2040_flashtool/cli.py:125-135 | there are `ceil(left / cap)` chunks |
| Transfer.RunFollowsPlan | rp2040_flashtool/cli.py:125-135 | with a positive cap the loop visits exactly the planned chunks |
| Transfer.ZeroCapNeverCompletes | rp2040_flashtool/cli.py:125-135 | with a cap of 0 a non-empty transfer never completes and reads nothing |
| Transfer.RunPlanCount | rp2040_flashtool/cli.py:125-135 | one attempt-count entry per chunk visited; all of them on success |
| Transfer.RunPlanTries | rp2040_flashtool/cli.py:127-134 | every chunk took one to three attempts |
| Transfer.RunPlanLog | rp2040_flashtool/cli.py:125-135 | a run only appends frames, each belonging to a planned chunk |
| Transfer.RunPlanData | rp2040_flashtool/cli.py:124-135 | data read is kept in order; erase/write read nothing; a complete read has every byte of the range |
| Transfer.RunPlanAborts | rp2040_flashtool/cli.py:127-135 | the first failing chunk ends the run with its final error; every earlier chunk succeeded |
| Transfer.CompletedChunk | rp2040_flashtool/cli.py:125-135 | in a completed run the k-th chunk is done between the end of chunk k-1 and its own end, and the last chunk ends the log |
| Transfer.RunPlanCompleted | rp2040_flashtool/cli.py:125-135 | a run without error did every planned chunk in plan order: its frames, then its confirmation, reads returning the chunk's slice of the data |
| Transfer.CompletedSent | rp2040_flashtool/cli.py:125-135 | a completed run's log is made of its chunks' frames in plan order |
| Transfer.ChunksCompletedSent | rp2040_flashtool/cli.py:125-135 | the same, with the chunk ends left unnamed |
| Transfer.RunKeeps | rp2040_flashtool/cli.py:125-135 | for any cap: frames are only appended, and errors are final |
| Transfer.TransferOutcome | rp2040_flashtool/cli.py:125-135 | the whole transfer: planned frames only, length of data read, one to three attempts per chunk, nothing moves with cap 0 |
| Transfer.TransferCompleted | rp2040_flashtool/cli.py:125-135 | a whole transfer without error completed every chunk of its plan, in order |
| Transfer.WriteFrameContents | rp2040_flashtool/cli.py:223 | a write frame carries address, size and `data[idx:idx+size]` |
| Transfer.EraseAlignment | rp2040_flashtool/cli.py:164-166 | with power-of-two sectors the mask test `EraseMisaligned` refuses exactly the misaligned address or length |
| Transfer.EraseZeroSector | rp2040_flashtool/cli.py:164-166 | with a sector size of 0 only an empty erase at address 0 goes on |
| Transfer.EraseOddSector | rp2040_flashtool/cli.py:164-166 | with 3000-byte sectors one sector at 3000 is refused |
| Transfer.Read | rp2040_flashtool/cli.py:111-135 | `read` after `info` computes `ReadSpec`, with the flash defaults |
| Transfer.Erase | rp2040_flashtool/cli.py:153-179 | `erase` after connecting computes `EraseSpec` |
| Transfer.Write | rp2040_flashtool/cli.py:211-229 | `write` after loading computes `WriteSpec` |
| Transfer.PlanFrame | rp2040_flashtool/cli.py:125-135 | a frame of a planned chunk is a frame of a chunk within the range and the cap |
| Transfer.WriteFrameOf | rp2040_flashtool/cli.py:219-229 | such a frame of a write is WRIT with the chunk's bytes of the image |
| Transfer.ReadOutcome | rp2040_flashtool/cli.py:105-135 | `read` appends only READ/CRCC frames of its chunks and never completes with cap 0; on success it returns all bytes, and each chunk, in order, ends with a READ reply of its size whose CRC-32 CRCC confirmed, that reply being the chunk's slice of the data |
| Transfer.EraseOutcome | rp2040_flashtool/cli.py:145-179 | a misaligned `erase` sends nothing; otherwise only ERAS frames of chunks ≤ 0xfffff000; on success every chunk, in plan order, was sent and acknowledged |
| Transfer.WriteOutcome | rp2040_flashtool/cli.py:195-229 | `write` is refused iff out of flash, sending nothing; otherwise it sends only WRIT frames of `data[idx:idx+size]` at `addr+idx`; on success every chunk, in plan order, was written and its CRC-32 confirmed; empty data sends nothing |
| Flasher.EraseLength | rp2040_flashtool/cli.py:247-249 | the erase length is the smallest multiple of the sector size not below the image length |
| Flasher.SealFrame | rp2040_flashtool/cli.py:231-237 | a seal sends one frame unless the values overflow; it is SEAL, address, length, CRC-32 |
| Flasher.GoTolerated | rp2040_flashtool/cli.py:258-264 | the jump succeeds iff the reply arrives or the port drops; only a timeout is an error |
| Flasher.Seal | rp2040_flashtool/cli.py:231-237 | `_seal` computes `SealSpec` |
| Flasher.Go | rp2040_flashtool/cli.py:258-264 | `_go` computes `GoSpec` |
| Flasher.WriteImage | rp2040_flashtool/cli.py:204-229 | `write` with a known device computes `WriteImageSpec` |
| Flasher.ReloadSame | rp2040_flashtool/cli.py:246-250 | loading the file again at the address of the first load gives the same image |
| Flasher.FlashWith | rp2040_flashtool/cli.py:246-256 | `flash` after `info` computes `FlashSession` |
| Flasher.Flash | rp2040_flashtool/cli.py:239-256 | `flash` computes `FlashSpec` |
| Flasher.FlashSequence | rp2040_flashtool/cli.py:239-256 | a successful `flash` sent the ERAS frames of every erase chunk in plan order, then the WRIT frames of every write chunk of the image in plan order, then SEAL with its CRC-32, then GOGO when booting |
| Flasher.ErasePhaseOf | rp2040_flashtool/cli.py:247-249 | erasing the image's padded range without error sends the ERAS frames of every erase chunk in plan order |
| Flasher.WritePhaseOf | rp2040_flashtool/cli.py:250 | writing the image without error sends the WRIT frames of every write chunk in plan order |
| Flasher.ErasePhasePrefix | rp2040_flashtool/cli.py:249-256 | later frames do not disturb the erase phase |
| Flasher.WritePhasePrefix | rp2040_flashtool/cli.py:250-256 | later frames do not disturb the write phase |
| Flasher.FinishLog | rp2040_flashtool/cli.py:251-256 | seal and jump append exactly their two frames |
| Flasher.AppendedPhases | rp2040_flashtool/cli.py:249-256 | an erase phase, a write phase, the seal and the jump, appended in that order, form the `flash` log |
| Flasher.FlashEraseAligned | rp2040_flashtool/cli.py:247-249 | with power-of-two sectors `flash` refuses to erase iff the image start is misaligned |
| Flasher.FlashBootDisconnect | rp2040_flashtool/cli.py:255-264 | when the port drops on the jump, booting adds only the GOGO frame and changes no outcome |
| Flasher.Connect | rp2040_flashtool/cli.py:151-152 | `info` is skipped exactly when both port and description are given |
| Flasher.Reconnect | rp2040_flashtool/cli.py:271-272 | the connection step computes `Connect` |
| Flasher.ReadCommand | rp2040_flashtool/cli.py:105-135 | the `read` command computes `ReadCommandSpec` |
| Flasher.EraseCommand | rp2040_flashtool/cli.py:145-179 | the `erase` command computes `EraseCommandSpec` |
| Flasher.WriteCommand | rp2040_flashtool/cli.py:195-229 | the `write` command computes `WriteCommandSpec` |
| Flasher.BootCommand | rp2040_flashtool/cli.py:266-274 | the `boot` command computes `BootCommandSpec` |
| Flasher.ReadCommandOutcome | rp2040_flashtool/cli.py:105-115 | a successful `read` sent one INFO frame first and returned `length` bytes (to the flash end by default) |
| IntegerOption.Body | rp2040_flashtool/type_hints.py:19-24 | the two-character prefix of the base ("0x"/"0X" for 16, "0b"/"0B" for 2) is dropped when present; otherwise the text is read whole |
| IntegerOption.IntOf | rp2040_flashtool/type_hints.py:15-26 | `int(s, base)` succeeds iff the text after its prefix is digits of the base, with their value |
| IntegerOption.BinaryShadowed | rp2040_flashtool/type_hints.py:15-26 | whatever base 2 accepts, base 10 or base 16 accepts first |
| IntegerOption.ParseInteger | rp2040_flashtool/type_hints.py:12-27 | an integer is kept; a text is accepted iff base 10, 16 or 2 accepts it, decimal taking precedence over hexadecimal; otherwise the error names the text |
| IntegerOption.ParseIntegerResult | rp2040_flashtool/type_hints.py:12-27 | integers unchanged; decimal first, then hex; an error iff neither, naming the text |
| IntegerOption.ExampleDecimal | rp2040_flashtool/type_hints.py:15-16 | "10" is ten |
| IntegerOption.ExampleHexPrefix | rp2040_flashtool/type_hints.py:19-20 | "0x1F" is 31 |
| IntegerOption.ExampleHexLetters | rp2040_flashtool/type_hints.py:19-20 | "ff" is 255 |
| IntegerOption.ExampleBinaryAsHex | rp2040_flashtool/type_hints.py:19-24 | "0b101" is 0xb101 |
| IntegerOption.ExamplePrefixOnly | rp2040_flashtool/type_hints.py:15-27 | "0x" is no number |
| IntegerOption.ParseIntegerIntended | rp2040_flashtool/type_hints.py:23-24 | a "0b" text of binary digits is binary; everything else as written |
| IntegerOption.ExampleBinaryIntended | rp2040_flashtool/type_hints.py:23-24 | with the prefix honoured, "0b101" is five |

## Left out

- Serial I/O, `sleep`, the one-second and ten-second deadlines and the wall clock: one finite `Exchange` per `send_cmd` stands in for what arrives before the deadline. The longer erase/write timeouts are therefore not distinguished.
- The ELF parser (elftools): the program headers and sections are given as records. File reading and writing (`open`, the output file of `read`) are left out: the file's bytes are given, and the bytes read are returned.
- Typer wiring, `print`, `_rename`, and the option declarations of type_hints.py. cli.py also uses `type_hints.bl_info`, `type_hints.boot` and `type_hints.boot_addr`, which type_hints.py does not define, so they are taken as plain parameters. `BootCommand` takes an integer address, so the `hex(None)` of a missing boot address is not modelled.
- `exit(1)` and the exceptions become `Error` values; their printed messages are left out.
- `IntegerOption.IntOf`: models `int(text, base)` on unsigned digit strings only. Python's leading/trailing whitespace, signs, underscores and non-ASCII digits are not modelled.
- `ImageFile.Lower`: lower-cases ASCII letters only. The path suffix follows `PurePath.suffix` for names split on '/', without Windows paths.
- `ElfImage.SortByPaddr`: `list.sort` is modelled as a value, a stable insertion sort, not as an in-place update.
- `Transfer.Run`: with `max_data_len` of 0 the source loop never ends. The model ends when the finite link runs out, with an error.
- `Crc32.Checksum`: written out bit by bit. Its values are stated only for two short inputs (`Crc32.ExampleChecksum`); the rest of the model only compares checksums.
- `Transfer.RunChunks`: receives each chunk's retry loop as the function `RetryFn`, whose loop is the separate method `Transfer.RetryChunk`, rather than calling that method.
- `Transfer.EraseAlignment`: the mask test equals an alignment test only for power-of-two sector sizes. Other sizes are shown by `EraseOddSector` and `EraseZeroSector` instead.
- `info`'s `for … else` with three attempts always breaks after the first attempt, so it is modelled as one attempt (`Protocol.InfoOnce`).

## Findings

| source | as written | input that shows it | evidently intended | confidence | as-written member | corrected member |
|---|---|---|---|---|---|---|
| rp2040_flashtool/type_hints.py:15-24 | base 10 and base 16 are tried before base 2, and every text base 2 accepts is also accepted by one of them, so the binary branch is unreachable | `"0b101"` parses as hexadecimal 0xb101 (45313); `"101"` parses as decimal 101 | `"0b101"` is binary 5 | not executed | IntegerOption.ExampleBinaryAsHex | IntegerOption.ParseIntegerIntended |
