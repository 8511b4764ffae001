/** The `flash` command of cli.py and the steps it chains: `info`, loading
    the image, erasing the sectors it covers, writing it, sealing it with
    its CRC-32 and, when asked, jumping to it; plus the connection step of
    the stand-alone commands. */
module Flasher {
  import opened Bytes
  import opened Errors
  import opened Crc32
  import opened DeviceInfo
  import opened ElfImage
  import opened ImageFile
  import opened Protocol
  import opened Transfer

  /** How a command ended: the error that stopped it, if any, and the frame
      log. */
  datatype Outcome = Outcome(error: Option<Error>, log: seq<Frame>)

  /** `len(data) + pad_len(len(data), erase_size)`: the length `flash`
      erases, the image rounded up to whole erase sectors. */
  function EraseLength(dataLen: nat, eraseSize: nat): (r: nat)
    requires eraseSize > 0
    ensures Aligned(r, eraseSize)
    ensures dataLen <= r < dataLen + eraseSize
    ensures r == dataLen <==> Aligned(dataLen, eraseSize)
  {
    dataLen + PadLen(dataLen, eraseSize)
  }

  // ---------------------------------------------------------------------
  // `_seal` and `_go`

  /** `_seal(port, addr, len(data), crc32(data))`: one SEAL frame with the
      address, the length and the little-endian CRC-32 of the image. */
  function SealSpec(addr: int, data: seq<byte>, link: Link, log: seq<Frame>): Outcome
  {
    var span := SpanArgs(addr, |data|);
    if span.None? then Outcome(Some(Overflow), log)
    else
      var frame := Frame(SEAL, span.value + LE32(Checksum(data)));
      var reply := Transact(ExchangeAt(link, |log|), frame, 0);
      Outcome(if reply.Err? then Some(reply.error) else None, log + [frame])
  }

  /** `_go(port, addr)`: one GOGO frame.  The device drops the serial port
      when it jumps, so a `SerialException` counts as success; a timeout
      does not. */
  function GoSpec(addr: int, link: Link, log: seq<Frame>): Outcome
  {
    var args := ToLE32(addr);
    if args.None? then Outcome(Some(Overflow), log)
    else
      var frame := Frame(GOGO, args.value);
      var reply := Transact(ExchangeAt(link, |log|), frame, 0);
      Outcome(if reply.Err? && reply.error != PortFailure then Some(reply.error) else None, log + [frame])
  }

  /** A seal that went through sent exactly one more frame: SEAL with the
      image's address, length and CRC-32, all little-endian. */
  lemma SealFrame(addr: int, data: seq<byte>, link: Link, log: seq<Frame>)
    ensures var s := SealSpec(addr, data, link, log);
      && (s.log == log <==> s.error == Some(Overflow))
      && (s.error.None? ==>
            && 0 <= addr < U32_LIMIT && |data| < U32_LIMIT
            && s.log == log + [Frame(SEAL, LE32(addr) + LE32(|data|) + LE32(Checksum(data)))])
  {
    SpanArgsDecode(addr, |data|);
  }

  /** The jump succeeds exactly when the GOGO exchange answers or the port
      goes away; only a reply that never arrives is an error. */
  lemma GoTolerated(addr: int, link: Link, log: seq<Frame>)
    ensures var g := GoSpec(addr, link, log);
      && (0 <= addr < U32_LIMIT ==> g.log == log + [Frame(GOGO, LE32(addr))])
      && (g.error.None? <==>
            && 0 <= addr < U32_LIMIT
            && (ExchangeAt(link, |log|).Broken? || Transact(ExchangeAt(link, |log|), Frame(GOGO, LE32(addr)), 0).Ok?))
      && (0 <= addr < U32_LIMIT && ExchangeAt(link, |log|).Replies? ==>
            g.error.None? || g.error.value.Timeout?)
  {
    var ex := ExchangeAt(link, |log|);
    if 0 <= addr < U32_LIMIT && ex.Replies? {
      ScanResult(ex.blocks, [], Frame(GOGO, LE32(addr)).Length(), 0);
    }
  }

  method Seal(addr: int, data: seq<byte>, link: Link, log: seq<Frame>) returns (s: Outcome)
    ensures s == SealSpec(addr, data, link, log)
  {
    var span := SpanArgs(addr, |data|);
    if span.None? {
      return Outcome(Some(Overflow), log);
    }
    var crc := LE32(Checksum(data));
    var frame := Frame(SEAL, span.value + crc);
    var reply := SendCmd(ExchangeAt(link, |log|), frame, 0);
    if reply.Err? {
      return Outcome(Some(reply.error), log + [frame]);
    }
    return Outcome(None, log + [frame]);
  }

  method Go(addr: int, link: Link, log: seq<Frame>) returns (g: Outcome)
    ensures g == GoSpec(addr, link, log)
  {
    var args := ToLE32(addr);
    if args.None? {
      return Outcome(Some(Overflow), log);
    }
    var frame := Frame(GOGO, args.value);
    var reply := SendCmd(ExchangeAt(link, |log|), frame, 0);
    if reply.Err? && reply.error != PortFailure {
      return Outcome(Some(reply.error), log + [frame]);
    }
    return Outcome(None, log + [frame]);
  }

  // ---------------------------------------------------------------------
  // `write` once the device is known: load the file, then the chunk loop

  function WriteImageSpec(info: BlInfo, file: InputFile, addr: Option<int>, link: Link, log: seq<Frame>): Outcome
  {
    var img := FileImage(file, info, addr);
    if img.Err? then Outcome(Some(img.error), log)
    else
      var w := WriteSpec(info, img.value.addr, img.value.data, link, log);
      Outcome(w.error, w.log)
  }

  method WriteImage(info: BlInfo, file: InputFile, addr: Option<int>, link: Link, log: seq<Frame>) returns (w: Outcome)
    ensures w == WriteImageSpec(info, file, addr, link, log)
  {
    var img := LoadFile(file, info, addr);
    if img.Err? {
      return Outcome(Some(img.error), log);
    }
    var t := Write(info, img.value.addr, img.value.data, link, log);
    return Outcome(t.error, t.log);
  }

  /** Loading the file a second time at the address the first load placed
      it gives the same image: a flat binary goes where it is told, an ELF
      image where its chunks say. */
  lemma ReloadSame(file: InputFile, info: BlInfo, addr: Option<int>)
    requires FileImage(file, info, addr).Ok?
    ensures FileImage(file, info, Some(FileImage(file, info, addr).value.addr)) == FileImage(file, info, addr)
  {
    var a := FileImage(file, info, addr).value.addr;
    if KindOf(file.path) == ElfKind {
      ElfFileImage(file, info, addr);
      ElfFileImage(file, info, Some(a));
    }
  }

  // ---------------------------------------------------------------------
  // `flash`

  /** Everything after `info`: the image is loaded (`load_file`), the
      sectors it covers are erased, `write` loads it again and writes it,
      then it is sealed and, if `shouldBoot`, started. */
  function FlashSession(info: BlInfo, file: InputFile, addr: Option<int>, shouldBoot: bool, link: Link, log: seq<Frame>): Outcome
  {
    var img := FileImage(file, info, addr);
    if img.Err? then Outcome(Some(img.error), log)
    else if info.eraseSize == 0 then Outcome(Some(ZeroDivision), log)
    else FlashImage(info, file, img.value, shouldBoot, link, log)
  }

  /** Erase `EraseLength` bytes from the image's address, then go on. */
  function FlashImage(info: BlInfo, file: InputFile, img: Image, shouldBoot: bool, link: Link, log: seq<Frame>): Outcome
    requires info.eraseSize > 0
  {
    var e := EraseSpec(info, Some(img.addr), Some(EraseLength(|img.data|, info.eraseSize)), link, log);
    if e.error.Some? then Outcome(e.error, e.log)
    else AfterErase(info, file, img, shouldBoot, link, e.log)
  }

  /** `write(in_file, port, addr, bl_info)`, then the seal and the jump. */
  function AfterErase(info: BlInfo, file: InputFile, img: Image, shouldBoot: bool, link: Link, log: seq<Frame>): Outcome
  {
    var w := WriteImageSpec(info, file, Some(img.addr), link, log);
    if w.error.Some? then w
    else Finish(img, shouldBoot, link, w.log)
  }

  function Finish(img: Image, shouldBoot: bool, link: Link, log: seq<Frame>): Outcome
  {
    var s := SealSpec(img.addr, img.data, link, log);
    if s.error.Some? || !shouldBoot then s else GoSpec(img.addr, link, s.log)
  }

  /** `flash`: `info`, then the session's steps. */
  function FlashSpec(port: Option<PortName>, available: seq<PortName>, probe: Prober, link: Link, log: seq<Frame>,
                     file: InputFile, addr: Option<int>, shouldBoot: bool): Outcome
  {
    var c := InfoSpec(port, available, probe, link, log);
    if c.result.Err? then Outcome(Some(c.result.error), c.log)
    else FlashSession(c.result.value.info, file, addr, shouldBoot, link, c.log)
  }

  method FlashWith(info: BlInfo, file: InputFile, addr: Option<int>, shouldBoot: bool, link: Link, log: seq<Frame>)
    returns (r: Outcome)
    ensures r == FlashSession(info, file, addr, shouldBoot, link, log)
  {
    var img := LoadFile(file, info, addr);
    if img.Err? {
      return Outcome(Some(img.error), log);
    }
    if info.eraseSize == 0 {
      return Outcome(Some(ZeroDivision), log);
    }
    var image := img.value;
    var e := Erase(info, Some(image.addr), Some(EraseLength(|image.data|, info.eraseSize)), link, log);
    if e.error.Some? {
      return Outcome(e.error, e.log);
    }
    var w := WriteImage(info, file, Some(image.addr), link, e.log);
    if w.error.Some? {
      return w;
    }
    r := Seal(image.addr, image.data, link, w.log);
    if r.error.None? && shouldBoot {
      r := Go(image.addr, link, r.log);
    }
  }

  method Flash(port: Option<PortName>, available: seq<PortName>, probe: Prober, link: Link, log: seq<Frame>,
               file: InputFile, addr: Option<int>, shouldBoot: bool) returns (r: Outcome)
    ensures r == FlashSpec(port, available, probe, link, log, file, addr, shouldBoot)
  {
    var c := Info(port, available, probe, link, log);
    if c.result.Err? {
      return Outcome(Some(c.result.error), c.log);
    }
    r := FlashWith(c.result.value.info, file, addr, shouldBoot, link, c.log);
  }

  // ---------------------------------------------------------------------
  // What `flash` guarantees

  /** `flash`'s log after `log`: the ERAS frames of the erased range, then
      the WRIT frames of the image, then the SEAL frame with the image's
      CRC-32 and, when booting, the GOGO frame. */
  ghost predicate FlashLog(full: seq<Frame>, log: seq<Frame>, info: BlInfo, img: Image, shouldBoot: bool)
  {
    var tail := if shouldBoot then 2 else 1;
    && info.eraseSize > 0
    && 0 <= img.addr < U32_LIMIT && |img.data| < U32_LIMIT
    && |log| + tail <= |full|
    && full[..|log|] == log
    && full[|full| - tail] == Frame(SEAL, LE32(img.addr) + LE32(|img.data|) + LE32(Checksum(img.data)))
    && (shouldBoot ==> full[|full| - 1] == Frame(GOGO, LE32(img.addr)))
    && exists m :: FlashPhases(full, log, info, img, m, shouldBoot)
  }

  /** Frames [|log|, m) erase, frames [m, end) write, where the last one or
      two frames (seal and jump) follow `end`. */
  ghost predicate FlashPhases(full: seq<Frame>, log: seq<Frame>, info: BlInfo, img: Image, m: int, shouldBoot: bool)
    requires info.eraseSize > 0
  {
    var end := |full| - (if shouldBoot then 2 else 1);
    && |log| <= m <= end
    && ErasePhase(full, log, m, info, img)
    && WritePhase(full, m, end, info, img)
  }

  /** Frames [|log|, m) are the ERAS frames of the erase plan: those of its
      first chunk, then those of its second, and so on, each chunk having at
      least one. */
  ghost predicate ErasePhase(full: seq<Frame>, log: seq<Frame>, m: int, info: BlInfo, img: Image)
    requires info.eraseSize > 0
  {
    var eraseLength := EraseLength(|img.data|, info.eraseSize);
    && |log| <= m <= |full|
    && (forall i :: |log| <= i < m ==> ChunkFrame(full[i], EraseOp, img.addr, eraseLength, ERASE_CAP))
    && ChunksSent(full[..m], |log|, EraseOp, img.addr, Plan(eraseLength, ERASE_CAP, 0))
  }

  /** Frames [m, end) are the WRIT frames of the image's write plan, chunk
      after chunk in plan order, each chunk having at least one; with a
      `max_data_len` of zero only an empty image gets this far, and it sends
      nothing. */
  ghost predicate WritePhase(full: seq<Frame>, m: int, end: int, info: BlInfo, img: Image)
  {
    && 0 <= m <= end <= |full|
    && (info.maxDataLen > 0 ==> forall i :: m <= i < end ==> WriteFrame(full[i], img.data, img.addr, info.maxDataLen))
    && (info.maxDataLen > 0 ==>
          ChunksSent(full[..end], m, WriteOp(img.data), img.addr, Plan(|img.data|, info.maxDataLen, 0)))
    && (info.maxDataLen == 0 ==> |img.data| == 0 && m == end)
  }

  /** A `flash` that ends without error loaded the image, erased it, wrote
      it and sealed it, in that order and with nothing else in between. */
  lemma FlashSequence(info: BlInfo, file: InputFile, addr: Option<int>, shouldBoot: bool, link: Link, log: seq<Frame>)
    ensures var r := FlashSession(info, file, addr, shouldBoot, link, log);
      var img := FileImage(file, info, addr);
      r.error.None? ==> img.Ok? && FlashLog(r.log, log, info, img.value, shouldBoot)
  {
    var r := FlashSession(info, file, addr, shouldBoot, link, log);
    var img := FileImage(file, info, addr);
    if r.error.None? {
      var a, data := img.value.addr, img.value.data;
      var n := EraseLength(|data|, info.eraseSize);
      var e := EraseSpec(info, Some(a), Some(n), link, log);
      EraseOutcome(info, Some(a), Some(n), link, log);
      ReloadSame(file, info, addr);
      var w := WriteSpec(info, a, data, link, e.log);
      WriteOutcome(info, a, data, link, e.log);
      assert AfterErase(info, file, img.value, shouldBoot, link, e.log) == Finish(img.value, shouldBoot, link, w.log);
      FinishLog(img.value, shouldBoot, link, w.log);
      ErasePhaseOf(info, img.value, link, log);
      WritePhaseOf(info, img.value, link, e.log);
      AppendedPhases(r.log, log, e.log, w.log, info, img.value, shouldBoot);
    }
  }

  /** An erase of the image's sectors without error is an erase phase. */
  lemma ErasePhaseOf(info: BlInfo, img: Image, link: Link, log: seq<Frame>)
    requires info.eraseSize > 0
    ensures var e := EraseSpec(info, Some(img.addr), Some(EraseLength(|img.data|, info.eraseSize)), link, log);
      e.error.None? ==> ErasePhase(e.log, log, |e.log|, info, img)
  {
    var e := EraseSpec(info, Some(img.addr), Some(EraseLength(|img.data|, info.eraseSize)), link, log);
    EraseOutcome(info, Some(img.addr), Some(EraseLength(|img.data|, info.eraseSize)), link, log);
    assert e.log[..|e.log|] == e.log;
    if e.error.None? {
      ChunksCompletedSent(e.log, |log|, EraseOp, link, img.addr, Plan(EraseLength(|img.data|, info.eraseSize), ERASE_CAP, 0), []);
    }
  }

  /** A write of the image without error is a write phase. */
  lemma WritePhaseOf(info: BlInfo, img: Image, link: Link, log: seq<Frame>)
    ensures var w := WriteSpec(info, img.addr, img.data, link, log);
      w.error.None? ==> WritePhase(w.log, |log|, |w.log|, info, img)
  {
    var w := WriteSpec(info, img.addr, img.data, link, log);
    WriteOutcome(info, img.addr, img.data, link, log);
    assert w.log[..|w.log|] == w.log;
    if w.error.None? && info.maxDataLen > 0 {
      ChunksCompletedSent(w.log, |log|, WriteOp(img.data), link, img.addr, Plan(|img.data|, info.maxDataLen, 0), []);
    }
  }

  /** The seal and the jump append one frame each. */
  lemma FinishLog(img: Image, shouldBoot: bool, link: Link, log: seq<Frame>)
    ensures var f := Finish(img, shouldBoot, link, log);
      f.error.None? ==>
        && 0 <= img.addr < U32_LIMIT && |img.data| < U32_LIMIT
        && f.log == log + [Frame(SEAL, LE32(img.addr) + LE32(|img.data|) + LE32(Checksum(img.data)))]
                        + (if shouldBoot then [Frame(GOGO, LE32(img.addr))] else [])
  {
    SealFrame(img.addr, img.data, link, log);
    var s := SealSpec(img.addr, img.data, link, log);
    if s.error.None? && shouldBoot {
      GoTolerated(img.addr, link, s.log);
    }
  }

  lemma AppendedPhases(full: seq<Frame>, log: seq<Frame>, elog: seq<Frame>, wlog: seq<Frame>, info: BlInfo, img: Image,
                       shouldBoot: bool)
    requires info.eraseSize > 0
    requires 0 <= img.addr < U32_LIMIT && |img.data| < U32_LIMIT
    requires |log| <= |elog| && elog[..|log|] == log
    requires |elog| <= |wlog| && wlog[..|elog|] == elog
    requires ErasePhase(elog, log, |elog|, info, img)
    requires WritePhase(wlog, |elog|, |wlog|, info, img)
    requires full == wlog + [Frame(SEAL, LE32(img.addr) + LE32(|img.data|) + LE32(Checksum(img.data)))]
                          + (if shouldBoot then [Frame(GOGO, LE32(img.addr))] else [])
    ensures FlashLog(full, log, info, img, shouldBoot)
  {
    assert full[..|wlog|] == wlog;
    assert full[..|elog|] == wlog[..|elog|] == elog;
    assert full[..|log|] == wlog[..|elog|][..|log|];
    ErasePhasePrefix(full, elog, log, info, img);
    WritePhasePrefix(full, wlog, |elog|, info, img);
    assert FlashPhases(full, log, info, img, |elog|, shouldBoot);
  }

  /** The erase phase of a log is one of every log it starts. */
  lemma ErasePhasePrefix(full: seq<Frame>, pre: seq<Frame>, log: seq<Frame>, info: BlInfo, img: Image)
    requires info.eraseSize > 0
    requires |pre| <= |full| && full[..|pre|] == pre
    requires ErasePhase(pre, log, |pre|, info, img)
    ensures ErasePhase(full, log, |pre|, info, img)
  {
    assert pre[..|pre|] == pre;
    forall i | |log| <= i < |pre|
      ensures ChunkFrame(full[i], EraseOp, img.addr, EraseLength(|img.data|, info.eraseSize), ERASE_CAP)
    {
      assert full[i] == pre[i];
    }
  }

  /** The write phase of a log is one of every log it starts. */
  lemma WritePhasePrefix(full: seq<Frame>, pre: seq<Frame>, m: int, info: BlInfo, img: Image)
    requires |pre| <= |full| && full[..|pre|] == pre
    requires WritePhase(pre, m, |pre|, info, img)
    ensures WritePhase(full, m, |pre|, info, img)
  {
    assert pre[..|pre|] == pre;
    if info.maxDataLen > 0 {
      forall i | m <= i < |pre| ensures WriteFrame(full[i], img.data, img.addr, info.maxDataLen) {
        assert full[i] == pre[i];
      }
    }
  }

  /** With power-of-two sectors the erase length never trips the sector
      mask, so `flash` refuses to erase exactly when the image does not
      start on a sector boundary. */
  lemma FlashEraseAligned(info: BlInfo, img: Image, k: nat)
    requires k < 32 && info.eraseSize == Pow2(k)
    ensures EraseMisaligned(info, img.addr, EraseLength(|img.data|, info.eraseSize)) <==> img.addr % info.eraseSize != 0
  {
    EraseAlignment(info, img.addr, EraseLength(|img.data|, info.eraseSize), k);
  }

  /** When the device drops the port on the jump, booting changes nothing
      but the GOGO frame: `flash` with boot succeeds exactly when `flash`
      without it does. */
  lemma FlashBootDisconnect(info: BlInfo, file: InputFile, addr: Option<int>, link: Link, log: seq<Frame>)
    requires var r := FlashSession(info, file, addr, false, link, log);
      ExchangeAt(link, |r.log|) == Broken
    ensures var r := FlashSession(info, file, addr, false, link, log);
      var b := FlashSession(info, file, addr, true, link, log);
      && (r.error.None? <==> b.error.None?)
      && (r.error.None? ==> exists a :: b.log == r.log + [Frame(GOGO, LE32(a))])
  {
    var r := FlashSession(info, file, addr, false, link, log);
    var img := FileImage(file, info, addr);
    if img.Ok? && info.eraseSize > 0 {
      var a, data := img.value.addr, img.value.data;
      var e := EraseSpec(info, Some(a), Some(EraseLength(|data|, info.eraseSize)), link, log);
      if e.error.None? {
        var w := WriteImageSpec(info, file, Some(a), link, e.log);
        if w.error.None? {
          var s := SealSpec(a, data, link, w.log);
          SealFrame(a, data, link, w.log);
          if s.error.None? {
            GoTolerated(a, link, s.log);
            assert r == s;
          }
        }
      }
    }
  }

  // ---------------------------------------------------------------------
  // The stand-alone commands

  /** `erase`, `write` and `boot` ask the device for its description
      (`info`) unless both the port and the description were given. */
  function Connect(port: Option<PortName>, blInfo: Option<BlInfo>, available: seq<PortName>, probe: Prober,
                   link: Link, log: seq<Frame>): (c: Connected)
    ensures port.Some? && blInfo.Some? ==> c == Connected(Ok(Session(port.value, blInfo.value)), log)
    ensures port.None? || blInfo.None? ==> c == InfoSpec(port, available, probe, link, log)
  {
    if port.Some? && blInfo.Some? then Connected(Ok(Session(port.value, blInfo.value)), log)
    else InfoSpec(port, available, probe, link, log)
  }

  /** `read`: always `info` first, then the chunk loop. */
  function ReadCommandSpec(port: Option<PortName>, available: seq<PortName>, probe: Prober, link: Link, log: seq<Frame>,
                           addr: Option<int>, length: Option<int>): Transfer
  {
    var c := InfoSpec(port, available, probe, link, log);
    if c.result.Err? then Transfer(Some(c.result.error), [], c.log, [])
    else ReadSpec(c.result.value.info, addr, length, link, c.log)
  }

  /** `erase`: the connection step, then the alignment check and the chunk
      loop. */
  function EraseCommandSpec(port: Option<PortName>, blInfo: Option<BlInfo>, available: seq<PortName>, probe: Prober,
                            link: Link, log: seq<Frame>, addr: Option<int>, length: Option<int>): Outcome
  {
    var c := Connect(port, blInfo, available, probe, link, log);
    if c.result.Err? then Outcome(Some(c.result.error), c.log)
    else
      var e := EraseSpec(c.result.value.info, addr, length, link, c.log);
      Outcome(e.error, e.log)
  }

  /** `write`: the connection step, then loading and writing the file. */
  function WriteCommandSpec(port: Option<PortName>, blInfo: Option<BlInfo>, available: seq<PortName>, probe: Prober,
                            link: Link, log: seq<Frame>, file: InputFile, addr: Option<int>): Outcome
  {
    var c := Connect(port, blInfo, available, probe, link, log);
    if c.result.Err? then Outcome(Some(c.result.error), c.log)
    else WriteImageSpec(c.result.value.info, file, addr, link, c.log)
  }

  /** `boot`: the connection step, then `_go`. */
  function BootCommandSpec(port: Option<PortName>, blInfo: Option<BlInfo>, available: seq<PortName>, probe: Prober,
                           link: Link, log: seq<Frame>, addr: int): Outcome
  {
    var c := Connect(port, blInfo, available, probe, link, log);
    if c.result.Err? then Outcome(Some(c.result.error), c.log)
    else GoSpec(addr, link, c.log)
  }

  /** The connection step as the commands run it. */
  method Reconnect(port: Option<PortName>, blInfo: Option<BlInfo>, available: seq<PortName>, probe: Prober,
                   link: Link, log: seq<Frame>) returns (c: Connected)
    ensures c == Connect(port, blInfo, available, probe, link, log)
  {
    if port.Some? && blInfo.Some? {
      return Connected(Ok(Session(port.value, blInfo.value)), log);
    }
    c := Info(port, available, probe, link, log);
  }

  method ReadCommand(port: Option<PortName>, available: seq<PortName>, probe: Prober, link: Link, log: seq<Frame>,
                     addr: Option<int>, length: Option<int>) returns (r: Transfer)
    ensures r == ReadCommandSpec(port, available, probe, link, log, addr, length)
  {
    var c := Info(port, available, probe, link, log);
    if c.result.Err? {
      return Transfer(Some(c.result.error), [], c.log, []);
    }
    r := Read(c.result.value.info, addr, length, link, c.log);
  }

  method EraseCommand(port: Option<PortName>, blInfo: Option<BlInfo>, available: seq<PortName>, probe: Prober,
                      link: Link, log: seq<Frame>, addr: Option<int>, length: Option<int>) returns (r: Outcome)
    ensures r == EraseCommandSpec(port, blInfo, available, probe, link, log, addr, length)
  {
    var c := Reconnect(port, blInfo, available, probe, link, log);
    if c.result.Err? {
      return Outcome(Some(c.result.error), c.log);
    }
    var e := Erase(c.result.value.info, addr, length, link, c.log);
    r := Outcome(e.error, e.log);
  }

  method WriteCommand(port: Option<PortName>, blInfo: Option<BlInfo>, available: seq<PortName>, probe: Prober,
                      link: Link, log: seq<Frame>, file: InputFile, addr: Option<int>) returns (r: Outcome)
    ensures r == WriteCommandSpec(port, blInfo, available, probe, link, log, file, addr)
  {
    var c := Reconnect(port, blInfo, available, probe, link, log);
    if c.result.Err? {
      return Outcome(Some(c.result.error), c.log);
    }
    r := WriteImage(c.result.value.info, file, addr, link, c.log);
  }

  method BootCommand(port: Option<PortName>, blInfo: Option<BlInfo>, available: seq<PortName>, probe: Prober,
                     link: Link, log: seq<Frame>, addr: int) returns (r: Outcome)
    ensures r == BootCommandSpec(port, blInfo, available, probe, link, log, addr)
  {
    var c := Reconnect(port, blInfo, available, probe, link, log);
    if c.result.Err? {
      return Outcome(Some(c.result.error), c.log);
    }
    r := Go(addr, link, c.log);
  }

  /** A read that completes with a positive `max_data_len` returns
      `length` bytes (the rest of the flash by default), and only after the
      one INFO frame. */
  lemma ReadCommandOutcome(port: Option<PortName>, available: seq<PortName>, probe: Prober, link: Link, log: seq<Frame>,
                           addr: Option<int>, length: Option<int>)
    ensures var r := ReadCommandSpec(port, available, probe, link, log, addr, length);
      var c := InfoSpec(port, available, probe, link, log);
      r.error.None? ==>
        && c.result.Ok?
        && |log| < |r.log|
        && r.log[..|log| + 1] == log + [Frame(INFO, [])]
        && var info := c.result.value.info;
           var a := OrDefault(addr, info.flashStart);
           info.maxDataLen > 0 ==> |r.data| == Max(0, OrDefault(length, info.FlashEnd() - a))
  {
    var c := InfoSpec(port, available, probe, link, log);
    InfoOnce(port, available, probe, link, log);
    if c.result.Ok? {
      ReadOutcome(c.result.value.info, addr, length, link, c.log);
    }
  }
}
