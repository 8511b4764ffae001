/** The chunked transfers of cli.py: `read`, `erase` and `write` walk the
    range in chunks of at most a fixed size and try each chunk up to three
    times, retrying only the failures `send_cmd` and the CRC checks report
    as ValueError. */
module Transfer {
  import opened Bytes
  import opened Errors
  import opened DeviceInfo
  import opened Crc32
  import opened Protocol

  const ATTEMPTS: nat := 3
  /** The largest erase chunk. */
  const ERASE_CAP: nat := 0xffff_f000

  /** What is transferred: a read, an erase, or a write of `image`
      (chunks are `image[idx:idx + size]`). */
  datatype Op = ReadOp | EraseOp | WriteOp(image: seq<byte>)

  /** The outcome of one attempt at one chunk: the bytes read (empty for an
      erase or a write) or the error, and the frame log after it. */
  datatype Step = Step(result: Result<seq<byte>>, log: seq<Frame>)

  // ---------------------------------------------------------------------
  // One attempt at one chunk: `_read`, `_erase`, `_write`

  function ReadAttempt(link: Link, log: seq<Frame>, addr: int, size: nat): Step
  {
    var args := SpanArgs(addr, size);
    if args.None? then Step(Err(Overflow), log)
    else
      var read := Frame(READ, args.value);
      var data := Transact(ExchangeAt(link, |log|), read, size);
      var log1 := log + [read];
      if data.Err? then Step(Err(data.error), log1)
      else if |data.value| != size then Step(Err(WrongLength), log1)
      else
        var check := Frame(CRCC, args.value);
        var crc := Transact(ExchangeAt(link, |log1|), check, CRC_REPLY);
        var log2 := log1 + [check];
        if crc.Err? then Step(Err(crc.error), log2)
        else if crc.value != LE32(Checksum(data.value)) then Step(Err(CrcMismatch), log2)
        else Step(Ok(data.value), log2)
  }

  function EraseAttempt(link: Link, log: seq<Frame>, addr: int, size: nat): Step
  {
    var args := SpanArgs(addr, size);
    if args.None? then Step(Err(Overflow), log)
    else
      var erase := Frame(ERAS, args.value);
      var reply := Transact(ExchangeAt(link, |log|), erase, 0);
      if reply.Err? then Step(Err(reply.error), log + [erase])
      else Step(Ok([]), log + [erase])
  }

  function WriteAttempt(link: Link, log: seq<Frame>, addr: int, chunk: seq<byte>): Step
  {
    var args := SpanArgs(addr, |chunk|);
    if args.None? then Step(Err(Overflow), log)
    else
      var write := Frame(WRIT, args.value + chunk);
      var crc := Transact(ExchangeAt(link, |log|), write, CRC_REPLY);
      if crc.Err? then Step(Err(crc.error), log + [write])
      else if crc.value != LE32(Checksum(chunk)) then Step(Err(CrcMismatch), log + [write])
      else Step(Ok([]), log + [write])
  }

  /** The chunk of `op` at offset `off`: what a write sends. */
  function ChunkOf(op: Op, off: nat, size: nat): seq<byte>
  {
    if op.WriteOp? then Slice(op.image, off, off + size) else []
  }

  /** One attempt at the chunk of `size` bytes at `addr`, which is offset
      `off` of the transfer. */
  function Attempt(op: Op, link: Link, log: seq<Frame>, addr: int, size: nat, off: nat): Step
  {
    match op
    case ReadOp => ReadAttempt(link, log, addr, size)
    case EraseOp => EraseAttempt(link, log, addr, size)
    case WriteOp(_) => WriteAttempt(link, log, addr, ChunkOf(op, off, size))
  }

  /** The arguments every frame of a chunk carries. */
  function ArgsOf(op: Op, addr: int, size: nat, off: nat): Option<seq<byte>>
  {
    if op.WriteOp? then
      var chunk := ChunkOf(op, off, size);
      var span := SpanArgs(addr, |chunk|);
      if span.None? then None else Some(span.value + chunk)
    else SpanArgs(addr, size)
  }

  predicate CommandOf(op: Op, cmd: seq<byte>)
  {
    match op
    case ReadOp => cmd == READ || cmd == CRCC
    case EraseOp => cmd == ERAS
    case WriteOp(_) => cmd == WRIT
  }

  /** `f` is a frame of the chunk of `size` bytes at `addr`. */
  predicate SentFor(f: Frame, op: Op, addr: int, size: nat, off: nat)
  {
    ArgsOf(op, addr, size, off).Some? && f.args == ArgsOf(op, addr, size, off).value && CommandOf(op, f.cmd)
  }

  /** The frames from position `from` of `log` on all belong to that chunk. */
  predicate AllSentFor(log: seq<Frame>, from: nat, op: Op, addr: int, size: nat, off: nat)
  {
    from <= |log| && forall i :: from <= i < |log| ==> SentFor(log[i], op, addr, size, off)
  }

  /** A `_read` chunk succeeds exactly when both exchanges complete, the data
      has the requested length and the CRCC reply is the little-endian CRC-32
      of that data; an address or size outside 32 bits fails before anything
      is sent. */
  lemma ReadAttemptOk(link: Link, log: seq<Frame>, addr: int, size: nat)
    ensures var s := ReadAttempt(link, log, addr, size);
      var args := SpanArgs(addr, size);
      && (args.None? <==> s == Step(Err(Overflow), log))
      && (s.result.Ok? <==>
            && args.Some?
            && var data := Transact(ExchangeAt(link, |log|), Frame(READ, args.value), size);
               var crc := Transact(ExchangeAt(link, |log| + 1), Frame(CRCC, args.value), CRC_REPLY);
               && data.Ok? && |data.value| == size && crc.Ok? && crc.value == LE32(Checksum(data.value))
               && s.result.value == data.value)
      && (s.result.Ok? ==> |s.result.value| == size)
  {
    var args := SpanArgs(addr, size);
    if args.Some? {
      var log1 := log + [Frame(READ, args.value)];
      assert |log1| == |log| + 1;
    }
  }

  /** A `_write` chunk succeeds exactly when the WRIT exchange completes and
      its reply is the little-endian CRC-32 of the bytes sent. */
  lemma WriteAttemptOk(link: Link, log: seq<Frame>, addr: int, chunk: seq<byte>)
    ensures var s := WriteAttempt(link, log, addr, chunk);
      var args := SpanArgs(addr, |chunk|);
      && (args.None? <==> s == Step(Err(Overflow), log))
      && (s.result.Ok? <==>
            && args.Some?
            && var crc := Transact(ExchangeAt(link, |log|), Frame(WRIT, args.value + chunk), CRC_REPLY);
               crc.Ok? && crc.value == LE32(Checksum(chunk)))
  {
    SpanArgsDecode(addr, |chunk|);
  }

  /** A chunk attempt appends at most two frames, all of its own chunk; one
      that succeeds used an exchange the device really answered. */
  predicate AttemptShape(s: Step, op: Op, link: Link, log: seq<Frame>, addr: int, size: nat, off: nat)
  {
    && |log| <= |s.log| <= |log| + 2
    && s.log[..|log|] == log
    && AllSentFor(s.log, |log|, op, addr, size, off)
    && (s.result.Ok? ==> |log| < |link| && |log| < |s.log|)
    && (ArgsOf(op, addr, size, off).None? <==> s == Step(Err(Overflow), log))
  }

  lemma ReadFacts(link: Link, log: seq<Frame>, addr: int, size: nat, off: nat)
    ensures AttemptShape(ReadAttempt(link, log, addr, size), ReadOp, link, log, addr, size, off)
  {
    var args := SpanArgs(addr, size);
    if args.Some? {
      var read := Frame(READ, args.value);
      var log1 := log + [read];
      assert log1[..|log|] == log;
      var log2 := log1 + [Frame(CRCC, args.value)];
      assert log2[..|log|] == log;
    }
  }

  lemma EraseFacts(link: Link, log: seq<Frame>, addr: int, size: nat, off: nat)
    ensures AttemptShape(EraseAttempt(link, log, addr, size), EraseOp, link, log, addr, size, off)
  {
    var args := SpanArgs(addr, size);
    if args.Some? {
      var log1 := log + [Frame(ERAS, args.value)];
      assert log1[..|log|] == log;
    }
  }

  lemma WriteFacts(link: Link, log: seq<Frame>, addr: int, image: seq<byte>, size: nat, off: nat)
    ensures AttemptShape(WriteAttempt(link, log, addr, ChunkOf(WriteOp(image), off, size)), WriteOp(image), link, log, addr, size, off)
  {
    var chunk := ChunkOf(WriteOp(image), off, size);
    var args := SpanArgs(addr, |chunk|);
    if args.Some? {
      var log1 := log + [Frame(WRIT, args.value + chunk)];
      assert log1[..|log|] == log;
    }
  }

  lemma AttemptFacts(op: Op, link: Link, log: seq<Frame>, addr: int, size: nat, off: nat)
    ensures AttemptShape(Attempt(op, link, log, addr, size, off), op, link, log, addr, size, off)
    ensures var s := Attempt(op, link, log, addr, size, off);
      s.result.Ok? && op.ReadOp? ==> |s.result.value| == size
  {
    match op
    case ReadOp =>
      ReadFacts(link, log, addr, size, off);
      ReadAttemptOk(link, log, addr, size);
    case EraseOp => EraseFacts(link, log, addr, size, off);
    case WriteOp(image) => WriteFacts(link, log, addr, image, size, off);
  }

  /** `log` ends with the frames of a successful attempt at the chunk of
      `size` bytes at `addr`, and the device's replies confirmed them: for
      a read, READ answered with `value`, `size` bytes, then CRCC answered
      with the CRC-32 of `value`; for an erase, ERAS acknowledged; for a
      write, WRIT answered with the CRC-32 of the bytes sent. */
  predicate ConfirmedAt(log: seq<Frame>, op: Op, link: Link, addr: int, size: nat, off: nat, value: seq<byte>)
  {
    match op
    case ReadOp =>
      && |log| >= 2
      && SpanArgs(addr, size).Some?
      && log[|log| - 2] == Frame(READ, SpanArgs(addr, size).value)
      && log[|log| - 1] == Frame(CRCC, SpanArgs(addr, size).value)
      && |value| == size
      && Transact(ExchangeAt(link, |log| - 2), log[|log| - 2], size) == Ok(value)
      && Transact(ExchangeAt(link, |log| - 1), log[|log| - 1], CRC_REPLY) == Ok(LE32(Checksum(value)))
    case EraseOp =>
      && |log| >= 1
      && SpanArgs(addr, size).Some?
      && log[|log| - 1] == Frame(ERAS, SpanArgs(addr, size).value)
      && Transact(ExchangeAt(link, |log| - 1), log[|log| - 1], 0).Ok?
    case WriteOp(_) =>
      && |log| >= 1
      && ArgsOf(op, addr, size, off).Some?
      && log[|log| - 1] == Frame(WRIT, ArgsOf(op, addr, size, off).value)
      && Transact(ExchangeAt(link, |log| - 1), log[|log| - 1], CRC_REPLY) == Ok(LE32(Checksum(ChunkOf(op, off, size))))
  }

  /** An attempt succeeds only on replies that confirm it. */
  lemma AttemptConfirmed(op: Op, link: Link, log: seq<Frame>, addr: int, size: nat, off: nat)
    ensures var s := Attempt(op, link, log, addr, size, off);
      s.result.Ok? ==> ConfirmedAt(s.log, op, link, addr, size, off, s.result.value)
  {
    var s := Attempt(op, link, log, addr, size, off);
    if s.result.Ok? {
      match op
      case ReadOp =>
        var args := SpanArgs(addr, size).value;
        assert s.log == log + [Frame(READ, args)] + [Frame(CRCC, args)];
      case EraseOp =>
      case WriteOp(_) =>
    }
  }

  // ---------------------------------------------------------------------
  // The retry loop: `for _ in range(attempts): try ... break / except
  // ValueError: pass / else: raise`

  /** A chunk's outcome after retrying: the result, the log and how many
      attempts were made. */
  datatype Tried = Tried(result: Result<seq<byte>>, log: seq<Frame>, attempts: nat)

  function Retry(op: Op, link: Link, log: seq<Frame>, addr: int, size: nat, off: nat, tries: nat): (t: Tried)
    requires tries >= 1
    ensures 1 <= t.attempts <= tries
    decreases tries
  {
    var s := Attempt(op, link, log, addr, size, off);
    if s.result.Ok? || !Retryable(s.result.error) then Tried(s.result, s.log, 1)
    else if tries == 1 then Tried(Err(RetriesExhausted), s.log, 1)
    else
      var t := Retry(op, link, s.log, addr, size, off, tries - 1);
      Tried(t.result, t.log, t.attempts + 1)
  }

  /** The retry loop only appends frames, all of them for the same chunk,
      and a success used an exchange the device really answered. */
  lemma {:induction false} RetryLog(op: Op, link: Link, log: seq<Frame>, addr: int, size: nat, off: nat, tries: nat)
    requires tries >= 1
    ensures var t := Retry(op, link, log, addr, size, off, tries);
      && |log| <= |t.log|
      && t.log[..|log|] == log
      && AllSentFor(t.log, |log|, op, addr, size, off)
      && (t.result.Ok? ==> |log| < |link| && |log| < |t.log|)
      && (t.result.Ok? && op.ReadOp? ==> |t.result.value| == size)
    decreases tries
  {
    AttemptFacts(op, link, log, addr, size, off);
    var s := Attempt(op, link, log, addr, size, off);
    if s.result.Err? && Retryable(s.result.error) && tries > 1 {
      RetryLog(op, link, s.log, addr, size, off, tries - 1);
      var t := Retry(op, link, s.log, addr, size, off, tries - 1);
      assert t.log[..|log|] == t.log[..|s.log|][..|log|];
      assert forall i :: |log| <= i < |s.log| ==> t.log[i] == s.log[i];
    }
  }

  /** The retry loop gives up early only on an error it does not catch, and
      reports exhaustion only after `tries` attempts that all failed with a
      caught error. */
  lemma {:induction false} RetryErrors(op: Op, link: Link, log: seq<Frame>, addr: int, size: nat, off: nat, tries: nat)
    requires tries >= 1
    ensures var t := Retry(op, link, log, addr, size, off, tries);
      && (t.result.Err? ==> !Retryable(t.result.error))
      && (t.result.Err? && t.result.error != RetriesExhausted ==> t.result.error == PortFailure || t.result.error == Overflow)
      && (t.result == Err(RetriesExhausted) ==> t.attempts == tries)
    decreases tries
  {
    var s := Attempt(op, link, log, addr, size, off);
    if s.result.Err? {
      AttemptErrors(op, link, log, addr, size, off);
      if Retryable(s.result.error) && tries > 1 {
        RetryErrors(op, link, s.log, addr, size, off, tries - 1);
      }
    }
  }

  /** Conversely, a chunk whose every attempt, from whatever log, fails
      with an error the loop catches ends in RetriesExhausted after exactly
      `tries` attempts. */
  lemma {:induction false} RetryExhausts(op: Op, link: Link, log: seq<Frame>, addr: int, size: nat, off: nat, tries: nat)
    requires tries >= 1
    requires forall l: seq<Frame> ::
      Attempt(op, link, l, addr, size, off).result.Err? && Retryable(Attempt(op, link, l, addr, size, off).result.error)
    ensures var t := Retry(op, link, log, addr, size, off, tries);
      t.result == Err(RetriesExhausted) && t.attempts == tries
    decreases tries
  {
    var s := Attempt(op, link, log, addr, size, off);
    if tries > 1 {
      RetryExhausts(op, link, s.log, addr, size, off, tries - 1);
    }
  }

  /** A chunk that succeeded used up an exchange of the link. */
  lemma RetryProgress(op: Op, link: Link, log: seq<Frame>, addr: int, size: nat, off: nat)
    ensures var t := Retry(op, link, log, addr, size, off, ATTEMPTS);
      t.result.Ok? ==> Remaining(link, t.log) < Remaining(link, log)
  {
    RetryLog(op, link, log, addr, size, off, ATTEMPTS);
  }

  /** The errors an attempt can end with. */
  lemma AttemptErrors(op: Op, link: Link, log: seq<Frame>, addr: int, size: nat, off: nat)
    ensures var s := Attempt(op, link, log, addr, size, off);
      s.result.Err? ==> Retryable(s.result.error) || s.result.error == PortFailure || s.result.error == Overflow
  {
  }

  /** `_read`: READ, the length check, then CRCC and the CRC comparison. */
  method ReadChunk(link: Link, log: seq<Frame>, addr: int, size: nat) returns (s: Step)
    ensures s == ReadAttempt(link, log, addr, size)
  {
    var args := SpanArgs(addr, size);
    if args.None? {
      return Step(Err(Overflow), log);
    }
    var read := Frame(READ, args.value);
    var data := SendCmd(ExchangeAt(link, |log|), read, size);
    var log1 := log + [read];
    if data.Err? {
      return Step(Err(data.error), log1);
    }
    if |data.value| != size {
      return Step(Err(WrongLength), log1);
    }
    var expected := LE32(Checksum(data.value));
    var check := Frame(CRCC, args.value);
    var crc := SendCmd(ExchangeAt(link, |log1|), check, CRC_REPLY);
    var log2 := log1 + [check];
    if crc.Err? {
      return Step(Err(crc.error), log2);
    }
    if expected != crc.value {
      return Step(Err(CrcMismatch), log2);
    }
    return Step(Ok(data.value), log2);
  }

  /** `_erase`: one ERAS command; its reply is not looked at. */
  method EraseChunk(link: Link, log: seq<Frame>, addr: int, size: nat) returns (s: Step)
    ensures s == EraseAttempt(link, log, addr, size)
  {
    var args := SpanArgs(addr, size);
    if args.None? {
      return Step(Err(Overflow), log);
    }
    var erase := Frame(ERAS, args.value);
    var reply := SendCmd(ExchangeAt(link, |log|), erase, 0);
    if reply.Err? {
      return Step(Err(reply.error), log + [erase]);
    }
    return Step(Ok([]), log + [erase]);
  }

  /** `_write`: WRIT with the data after the address and size, then the CRC
      comparison. */
  method WriteChunk(link: Link, log: seq<Frame>, addr: int, chunk: seq<byte>) returns (s: Step)
    ensures s == WriteAttempt(link, log, addr, chunk)
  {
    var args := SpanArgs(addr, |chunk|);
    if args.None? {
      return Step(Err(Overflow), log);
    }
    var write := Frame(WRIT, args.value + chunk);
    var crc := SendCmd(ExchangeAt(link, |log|), write, CRC_REPLY);
    if crc.Err? {
      return Step(Err(crc.error), log + [write]);
    }
    var expected := LE32(Checksum(chunk));
    if expected != crc.value {
      return Step(Err(CrcMismatch), log + [write]);
    }
    return Step(Ok([]), log + [write]);
  }

  method AttemptChunk(op: Op, link: Link, log: seq<Frame>, addr: int, size: nat, off: nat) returns (s: Step)
    ensures s == Attempt(op, link, log, addr, size, off)
  {
    match op
    case ReadOp => s := ReadChunk(link, log, addr, size);
    case EraseOp => s := EraseChunk(link, log, addr, size);
    case WriteOp(image) => s := WriteChunk(link, log, addr, Slice(image, off, off + size));
  }

  /** The retry loop around one chunk. */
  method RetryChunk(op: Op, link: Link, log: seq<Frame>, addr: int, size: nat, off: nat) returns (t: Tried)
    ensures t == Retry(op, link, log, addr, size, off, ATTEMPTS)
  {
    var current := log;
    var k := 0;
    while k < ATTEMPTS
      invariant 0 <= k < ATTEMPTS
      invariant var rest := Retry(op, link, current, addr, size, off, ATTEMPTS - k);
        Retry(op, link, log, addr, size, off, ATTEMPTS) == rest.(attempts := rest.attempts + k)
      decreases ATTEMPTS - k
    {
      var s := AttemptChunk(op, link, current, addr, size, off);
      var rest := Retry(op, link, current, addr, size, off, ATTEMPTS - k);
      assert rest == if s.result.Ok? || !Retryable(s.result.error) then Tried(s.result, s.log, 1)
        else if ATTEMPTS - k == 1 then Tried(Err(RetriesExhausted), s.log, 1)
        else var t := Retry(op, link, s.log, addr, size, off, ATTEMPTS - k - 1); Tried(t.result, t.log, t.attempts + 1);
      if s.result.Ok? || !Retryable(s.result.error) {
        return Tried(s.result, s.log, k + 1);
      }
      if k == ATTEMPTS - 1 {
        return Tried(Err(RetriesExhausted), s.log, k + 1);
      }
      current := s.log;
      k := k + 1;
    }
    assert false;
  }

  // ---------------------------------------------------------------------
  // The chunk loop: `while idx < length: size = min(cap, length - idx) ...`

  /** The exchanges of the link not yet used. */
  function Remaining(link: Link, log: seq<Frame>): nat
  {
    if |log| < |link| then |link| - |log| else 0
  }

  /** One chunk's retry loop as the chunk loop sees it: from the log so far
      and the chunk (address, size, offset) to its outcome. */
  type ChunkFn = (seq<Frame>, int, nat, nat) -> Tried

  /** The retry loop of `op`, over the exchanges of `link`. */
  function RetryFn(op: Op, link: Link): ChunkFn
  {
    (log: seq<Frame>, addr: int, size: nat, off: nat) => Retry(op, link, log, addr, size, off, ATTEMPTS)
  }

  /** Every chunk that succeeds uses up an exchange of `link`. */
  ghost predicate Progressing(chunk: ChunkFn, link: Link)
  {
    forall log: seq<Frame>, addr: int, size: nat, off: nat ::
      chunk(log, addr, size, off).result.Ok? ==> Remaining(link, chunk(log, addr, size, off).log) < Remaining(link, log)
  }

  /** What the chunk loop relies on from one chunk's outcome `t`. */
  predicate ChunkLaw(t: Tried, op: Op, link: Link, log: seq<Frame>, addr: int, size: nat, off: nat)
  {
    && |log| <= |t.log|
    && t.log[..|log|] == log
    && AllSentFor(t.log, |log|, op, addr, size, off)
    && 1 <= t.attempts <= ATTEMPTS
    && (t.result.Ok? && op.ReadOp? ==> |t.result.value| == size)
    && (t.result.Ok? && !op.ReadOp? ==> t.result.value == [])
  }

  /** A chunk fails only with an error the retry loop does not catch, or
      with the exhaustion of its attempts. */
  ghost predicate ErrorsKnown(chunk: ChunkFn)
  {
    forall log: seq<Frame>, addr: int, size: nat, off: nat ::
      chunk(log, addr, size, off).result.Err? ==> FinalError(chunk(log, addr, size, off).result.error)
  }

  predicate FinalError(e: Error)
  {
    e == PortFailure || e == Overflow || e == RetriesExhausted
  }

  ghost predicate Sound(chunk: ChunkFn, link: Link, op: Op)
  {
    && Progressing(chunk, link)
    && ErrorsKnown(chunk)
    && forall log: seq<Frame>, addr: int, size: nat, off: nat ::
         ChunkLaw(chunk(log, addr, size, off), op, link, log, addr, size, off)
  }

  /** The retry loop of every operation keeps those laws. */
  lemma RetrySound(op: Op, link: Link)
    ensures Sound(RetryFn(op, link), link, op)
  {
    var chunk := RetryFn(op, link);
    forall log: seq<Frame>, addr: int, size: nat, off: nat
      ensures ChunkLaw(chunk(log, addr, size, off), op, link, log, addr, size, off)
      ensures chunk(log, addr, size, off).result.Ok? ==> Remaining(link, chunk(log, addr, size, off).log) < Remaining(link, log)
      ensures chunk(log, addr, size, off).result.Err? ==> FinalError(chunk(log, addr, size, off).result.error)
    {
      RetryLog(op, link, log, addr, size, off, ATTEMPTS);
      RetryErrors(op, link, log, addr, size, off, ATTEMPTS);
      RetryEmpty(op, link, log, addr, size, off, ATTEMPTS);
    }
  }

  lemma RetryProgressing(op: Op, link: Link)
    ensures Progressing(RetryFn(op, link), link)
  {
    RetrySound(op, link);
  }

  /** An erase or a write returns no data. */
  lemma {:induction false} RetryEmpty(op: Op, link: Link, log: seq<Frame>, addr: int, size: nat, off: nat, tries: nat)
    requires tries >= 1
    ensures var t := Retry(op, link, log, addr, size, off, tries);
      t.result.Ok? && !op.ReadOp? ==> t.result.value == []
    decreases tries
  {
    var s := Attempt(op, link, log, addr, size, off);
    if s.result.Err? && Retryable(s.result.error) && tries > 1 {
      RetryEmpty(op, link, s.log, addr, size, off, tries - 1);
    }
  }

  /** A chunk the retry loop reports done ends with the confirmed frames of
      its last attempt. */
  lemma {:induction false} RetryConfirmed(op: Op, link: Link, log: seq<Frame>, addr: int, size: nat, off: nat, tries: nat)
    requires tries >= 1
    ensures var t := Retry(op, link, log, addr, size, off, tries);
      t.result.Ok? ==> ConfirmedAt(t.log, op, link, addr, size, off, t.result.value)
    decreases tries
  {
    var s := Attempt(op, link, log, addr, size, off);
    AttemptConfirmed(op, link, log, addr, size, off);
    if s.result.Err? && Retryable(s.result.error) && tries > 1 {
      RetryConfirmed(op, link, s.log, addr, size, off, tries - 1);
    }
  }

  /** Every chunk that succeeds ends with frames the device confirmed. */
  ghost predicate Confirming(chunk: ChunkFn, link: Link, op: Op)
  {
    forall log: seq<Frame>, addr: int, size: nat, off: nat ::
      chunk(log, addr, size, off).result.Ok? ==>
        ConfirmedAt(chunk(log, addr, size, off).log, op, link, addr, size, off, chunk(log, addr, size, off).result.value)
  }

  lemma RetryConfirming(op: Op, link: Link)
    ensures Confirming(RetryFn(op, link), link, op)
  {
    forall log: seq<Frame>, addr: int, size: nat, off: nat
      ensures var t := RetryFn(op, link)(log, addr, size, off);
        t.result.Ok? ==> ConfirmedAt(t.log, op, link, addr, size, off, t.result.value)
    {
      RetryConfirmed(op, link, log, addr, size, off, ATTEMPTS);
    }
  }

  /** The outcome of a transfer: the error that ended it, if any, the bytes
      read, the frame log and how many attempts each chunk took. */
  datatype Transfer = Transfer(error: Option<Error>, data: seq<byte>, log: seq<Frame>, tries: seq<nat>)

  /** The chunk loop from offset `idx` on, with `out` read and `tries`
      recorded so far.  Since every chunk that succeeds uses up an exchange
      the device answered, the loop ends once the record of answers runs
      out; with a cap of zero no chunk advances `idx`, and that is the only
      way it ends. */
  function Run(chunk: ChunkFn, link: Link, log: seq<Frame>, base: int, length: int, cap: nat, idx: nat,
               out: seq<byte>, tries: seq<nat>): Transfer
    requires Progressing(chunk, link)
    decreases Remaining(link, log)
  {
    if idx >= length then Transfer(None, out, log, tries)
    else
      var size: nat := Min(cap, length - idx);
      var t := chunk(log, base + idx, size, idx);
      if t.result.Err? then Transfer(Some(t.result.error), out, t.log, tries + [t.attempts])
      else Run(chunk, link, t.log, base, length, cap, idx + size, out + t.result.value, tries + [t.attempts])
  }

  /** The chunk loop of `read`, `erase` and `write`: `chunk` is the retry
      loop of each chunk (`RetryFn`, whose loop is `RetryChunk`). */
  method RunChunks(chunk: ChunkFn, link: Link, log: seq<Frame>, base: int, length: int, cap: nat) returns (r: Transfer)
    requires Progressing(chunk, link)
    ensures r == Run(chunk, link, log, base, length, cap, 0, [], [])
  {
    var idx: nat := 0;
    var out: seq<byte> := [];
    var tries: seq<nat> := [];
    var current := log;
    while idx < length
      invariant Run(chunk, link, log, base, length, cap, 0, [], []) == Run(chunk, link, current, base, length, cap, idx, out, tries)
      decreases Remaining(link, current)
    {
      var size: nat := Min(cap, length - idx);
      var t := chunk(current, base + idx, size, idx);
      if t.result.Err? {
        return Transfer(Some(t.result.error), out, t.log, tries + [t.attempts]);
      }
      out, tries, current, idx := out + t.result.value, tries + [t.attempts], t.log, idx + size;
    }
    return Transfer(None, out, current, tries);
  }

  // ---------------------------------------------------------------------
  // The chunks the loop visits

  /** A chunk: its offset in the transfer and its size. */
  datatype Span = Span(off: nat, size: nat)

  /** The chunks from offset `idx` on, each `min(cap, length - idx)` long. */
  function Plan(length: int, cap: nat, idx: nat): seq<Span>
    requires cap > 0
    decreases length - idx
  {
    if idx >= length then []
    else
      var size: nat := Min(cap, length - idx);
      [Span(idx, size)] + Plan(length, cap, idx + size)
  }

  function Total(plan: seq<Span>): nat
  {
    if plan == [] then 0 else plan[0].size + Total(plan[1..])
  }

  /** The chunks tile [idx, length) in order, each as large as the cap and
      what is left allow, and none empty. */
  lemma {:induction false} PlanShape(length: int, cap: nat, idx: nat)
    requires cap > 0
    ensures var p := Plan(length, cap, idx);
      && (p == [] <==> idx >= length)
      && (p != [] ==> p[0].off == idx && p[|p| - 1].off + p[|p| - 1].size == length)
      && (forall i :: 0 <= i < |p| ==> PlannedChunk(p[i], length, cap))
      && (forall i :: 0 <= i < |p| - 1 ==> p[i + 1].off == p[i].off + p[i].size)
    decreases length - idx
  {
    if idx < length {
      var size: nat := Min(cap, length - idx);
      PlanShape(length, cap, idx + size);
      var p := Plan(length, cap, idx);
      var q := Plan(length, cap, idx + size);
      assert p[1..] == q;
      forall i | 1 <= i < |p| ensures p[i] == q[i - 1] {
      }
    }
  }

  /** A chunk of size `min(cap, length - off)`, neither empty nor past the end. */
  predicate PlannedChunk(c: Span, length: int, cap: nat)
  {
    0 < c.size <= cap && c.size == Min(cap, length - c.off) && c.off + c.size <= length
  }

  /** The chunks cover what is left to move. */
  lemma {:induction false} PlanTotal(length: int, cap: nat, idx: nat)
    requires cap > 0
    ensures Total(Plan(length, cap, idx)) == (if idx < length then length - idx else 0)
    decreases length - idx
  {
    if idx < length {
      var size: nat := Min(cap, length - idx);
      PlanTotal(length, cap, idx + size);
      assert Plan(length, cap, idx)[1..] == Plan(length, cap, idx + size);
    }
  }

  /** There are ceil((length - idx) / cap) chunks. */
  lemma {:induction false} PlanCount(length: int, cap: nat, idx: nat)
    requires cap > 0 && idx <= length
    ensures |Plan(length, cap, idx)| == (length - idx + cap - 1) / cap
    decreases length - idx
  {
    var left := length - idx;
    if left == 0 {
      DivModUnique(cap - 1, cap, 0, cap - 1);
    } else if left <= cap {
      assert Plan(length, cap, idx) == [Span(idx, left)] + Plan(length, cap, length);
      DivModUnique(left + cap - 1, cap, 1, left - 1);
    } else {
      PlanCount(length, cap, idx + cap);
      DivModUnique(left - 1, cap, (left - 1) / cap, (left - 1) % cap);
      DivModUnique(left + cap - 1, cap, (left - 1) / cap + 1, (left - 1) % cap);
    }
  }

  /** The chunk loop run over a list of chunks. */
  function RunPlan(chunk: ChunkFn, log: seq<Frame>, base: int, plan: seq<Span>, out: seq<byte>, tries: seq<nat>): Transfer
    decreases |plan|
  {
    if plan == [] then Transfer(None, out, log, tries)
    else
      var t := chunk(log, base + plan[0].off, plan[0].size, plan[0].off);
      if t.result.Err? then Transfer(Some(t.result.error), out, t.log, tries + [t.attempts])
      else RunPlan(chunk, t.log, base, plan[1..], out + t.result.value, tries + [t.attempts])
  }

  /** With a positive cap the loop visits exactly the chunks of the plan. */
  lemma {:induction false} RunFollowsPlan(chunk: ChunkFn, link: Link, log: seq<Frame>, base: int, length: int, cap: nat,
                                          idx: nat, out: seq<byte>, tries: seq<nat>)
    requires Progressing(chunk, link) && cap > 0
    ensures Run(chunk, link, log, base, length, cap, idx, out, tries) == RunPlan(chunk, log, base, Plan(length, cap, idx), out, tries)
    decreases Remaining(link, log)
  {
    if idx < length {
      var size: nat := Min(cap, length - idx);
      var t := chunk(log, base + idx, size, idx);
      var p := Plan(length, cap, idx);
      assert p[0] == Span(idx, size) && p[1..] == Plan(length, cap, idx + size);
      if t.result.Ok? {
        RunFollowsPlan(chunk, link, t.log, base, length, cap, idx + size, out + t.result.value, tries + [t.attempts]);
      }
    }
  }

  /** With a cap of zero no chunk advances the loop: a transfer with
      anything to move never completes and reads nothing. */
  lemma {:induction false} ZeroCapNeverCompletes(chunk: ChunkFn, link: Link, log: seq<Frame>, base: int, length: int,
                                                 idx: nat, out: seq<byte>, tries: seq<nat>)
    requires Progressing(chunk, link) && idx < length
    requires forall l: seq<Frame>, a: int, o: nat :: chunk(l, a, 0, o).result.Ok? ==> chunk(l, a, 0, o).result.value == []
    ensures var r := Run(chunk, link, log, base, length, 0, idx, out, tries);
      r.error.Some? && r.data == out
    decreases Remaining(link, log)
  {
    var t := chunk(log, base + idx, 0, idx);
    if t.result.Ok? {
      ZeroCapNeverCompletes(chunk, link, t.log, base, length, idx, out + t.result.value, tries + [t.attempts]);
      assert out + t.result.value == out;
    }
  }

  /** Each chunk visited records one entry, and a run without error
      visited every chunk. */
  lemma {:induction false} RunPlanCount(chunk: ChunkFn, log: seq<Frame>, base: int, plan: seq<Span>,
                                        out: seq<byte>, tries: seq<nat>)
    ensures var r := RunPlan(chunk, log, base, plan, out, tries);
      && |tries| <= |r.tries| <= |tries| + |plan|
      && r.tries[..|tries|] == tries
      && (r.error.None? ==> |r.tries| == |tries| + |plan|)
      && (r.error.Some? ==> |r.tries| > |tries|)
    decreases |plan|
  {
    if plan != [] {
      var t := chunk(log, base + plan[0].off, plan[0].size, plan[0].off);
      if t.result.Ok? {
        var tries' := tries + [t.attempts];
        RunPlanCount(chunk, t.log, base, plan[1..], out + t.result.value, tries');
        var r := RunPlan(chunk, log, base, plan, out, tries);
        assert r.tries[..|tries|] == r.tries[..|tries'|][..|tries|];
      }
    }
  }

  /** Every entry records between one and three attempts. */
  lemma {:induction false} RunPlanTries(chunk: ChunkFn, link: Link, op: Op, log: seq<Frame>, base: int, plan: seq<Span>,
                                        out: seq<byte>, tries: seq<nat>)
    requires Sound(chunk, link, op)
    ensures var r := RunPlan(chunk, log, base, plan, out, tries);
      forall i :: |tries| <= i < |r.tries| ==> 1 <= r.tries[i] <= ATTEMPTS
    decreases |plan|
  {
    RunPlanCount(chunk, log, base, plan, out, tries);
    if plan != [] {
      var t := chunk(log, base + plan[0].off, plan[0].size, plan[0].off);
      assert ChunkLaw(t, op, link, log, base + plan[0].off, plan[0].size, plan[0].off);
      if t.result.Ok? {
        var tries' := tries + [t.attempts];
        RunPlanTries(chunk, link, op, t.log, base, plan[1..], out + t.result.value, tries');
        RunPlanCount(chunk, t.log, base, plan[1..], out + t.result.value, tries');
        var r := RunPlan(chunk, log, base, plan, out, tries);
        assert r.tries[|tries|] == r.tries[..|tries'|][|tries|];
      }
    }
  }

  /** `f` is a frame of one of the chunks of `plan`. */
  ghost predicate FrameOfPlan(f: Frame, op: Op, base: int, plan: seq<Span>)
  {
    exists j :: 0 <= j < |plan| && SentFor(f, op, base + plan[j].off, plan[j].size, plan[j].off)
  }

  lemma FrameOfPlanTail(f: Frame, op: Op, base: int, plan: seq<Span>)
    requires plan != [] && FrameOfPlan(f, op, base, plan[1..])
    ensures FrameOfPlan(f, op, base, plan)
  {
    var j :| 0 <= j < |plan| - 1 && SentFor(f, op, base + plan[1..][j].off, plan[1..][j].size, plan[1..][j].off);
    var k, c := j + 1, plan[1..][j];
    assert c == plan[k];
    assert 0 <= k < |plan| && SentFor(f, op, base + plan[k].off, plan[k].size, plan[k].off);
  }

  lemma FrameOfPlanHead(f: Frame, op: Op, base: int, plan: seq<Span>)
    requires plan != [] && SentFor(f, op, base + plan[0].off, plan[0].size, plan[0].off)
    ensures FrameOfPlan(f, op, base, plan)
  {
  }

  /** A run only appends frames, and every frame it appends belongs to one
      of its chunks. */
  lemma {:induction false} RunPlanLog(chunk: ChunkFn, link: Link, op: Op, log: seq<Frame>, base: int, plan: seq<Span>,
                                      out: seq<byte>, tries: seq<nat>)
    requires Sound(chunk, link, op)
    ensures var r := RunPlan(chunk, log, base, plan, out, tries);
      && |log| <= |r.log|
      && r.log[..|log|] == log
      && forall i :: |log| <= i < |r.log| ==> FrameOfPlan(r.log[i], op, base, plan)
    decreases |plan|
  {
    if plan != [] {
      var c := plan[0];
      var t := chunk(log, base + c.off, c.size, c.off);
      assert ChunkLaw(t, op, link, log, base + c.off, c.size, c.off);
      var r := RunPlan(chunk, log, base, plan, out, tries);
      if t.result.Ok? {
        RunPlanLog(chunk, link, op, t.log, base, plan[1..], out + t.result.value, tries + [t.attempts]);
        assert r.log[..|log|] == r.log[..|t.log|][..|log|];
        forall i | |log| <= i < |r.log| ensures FrameOfPlan(r.log[i], op, base, plan) {
          if i < |t.log| {
            assert r.log[i] == t.log[i];
            FrameOfPlanHead(r.log[i], op, base, plan);
          } else {
            FrameOfPlanTail(r.log[i], op, base, plan);
          }
        }
      } else {
        forall i | |log| <= i < |r.log| ensures FrameOfPlan(r.log[i], op, base, plan) {
          FrameOfPlanHead(r.log[i], op, base, plan);
        }
      }
    }
  }

  /** The data read so far is kept; an erase or a write reads nothing, and
      a read without error returns as many bytes as its chunks cover. */
  lemma {:induction false} RunPlanData(chunk: ChunkFn, link: Link, op: Op, log: seq<Frame>, base: int, plan: seq<Span>,
                                       out: seq<byte>, tries: seq<nat>)
    requires Sound(chunk, link, op)
    ensures var r := RunPlan(chunk, log, base, plan, out, tries);
      && |out| <= |r.data|
      && r.data[..|out|] == out
      && (!op.ReadOp? ==> r.data == out)
      && (op.ReadOp? && r.error.None? ==> |r.data| == |out| + Total(plan))
    decreases |plan|
  {
    if plan != [] {
      var t := chunk(log, base + plan[0].off, plan[0].size, plan[0].off);
      assert ChunkLaw(t, op, link, log, base + plan[0].off, plan[0].size, plan[0].off);
      if t.result.Ok? {
        var out' := out + t.result.value;
        RunPlanData(chunk, link, op, t.log, base, plan[1..], out', tries + [t.attempts]);
        var r := RunPlan(chunk, log, base, plan, out, tries);
        assert r.data[..|out|] == r.data[..|out'|][..|out|];
        if !op.ReadOp? {
          assert out' == out;
        }
      }
    }
  }

  /** The first chunk that fails ends the run: every chunk before it
      succeeded, the chunks after it change nothing, and its error, one the
      retry loop does not catch or the exhaustion of the attempts, is the
      run's error. */
  lemma {:induction false} RunPlanAborts(chunk: ChunkFn, log: seq<Frame>, base: int, plan: seq<Span>,
                                         out: seq<byte>, tries: seq<nat>)
    requires ErrorsKnown(chunk)
    ensures var r := RunPlan(chunk, log, base, plan, out, tries);
      r.error.Some? ==>
        var j := |r.tries| - |tries| - 1;
        && 0 <= j < |plan|
        && RunPlan(chunk, log, base, plan[..j], out, tries).error.None?
        && RunPlan(chunk, log, base, plan[..j + 1], out, tries) == r
        && FinalError(r.error.value)
    decreases |plan|
  {
    RunPlanCount(chunk, log, base, plan, out, tries);
    if plan != [] {
      var t := chunk(log, base + plan[0].off, plan[0].size, plan[0].off);
      var r := RunPlan(chunk, log, base, plan, out, tries);
      if t.result.Err? {
        assert plan[..0] == [];
        assert plan[..1] == [plan[0]];
        assert RunPlan(chunk, log, base, [plan[0]], out, tries) == r;
      } else if r.error.Some? {
        var out', tries' := out + t.result.value, tries + [t.attempts];
        RunPlanAborts(chunk, t.log, base, plan[1..], out', tries');
        RunPlanCount(chunk, t.log, base, plan[1..], out', tries');
        var j := |r.tries| - |tries| - 1;
        RunPlanPrefix(chunk, log, base, plan, j, out, tries);
        RunPlanPrefix(chunk, log, base, plan, j + 1, out, tries);
      }
    }
  }

  /** A prefix of a plan whose first chunk succeeds runs on from that chunk. */
  lemma RunPlanPrefix(chunk: ChunkFn, log: seq<Frame>, base: int, plan: seq<Span>, k: nat, out: seq<byte>, tries: seq<nat>)
    requires 1 <= k <= |plan|
    requires chunk(log, base + plan[0].off, plan[0].size, plan[0].off).result.Ok?
    ensures var t := chunk(log, base + plan[0].off, plan[0].size, plan[0].off);
      RunPlan(chunk, log, base, plan[..k], out, tries)
        == RunPlan(chunk, t.log, base, plan[1..][..k - 1], out + t.result.value, tries + [t.attempts])
  {
    assert plan[..k][0] == plan[0];
    assert plan[..k][1..] == plan[1..][..k - 1];
  }

  /** Whatever the cap, a run only appends frames, an erase or a write
      reads nothing, and a run that fails does so with an error the retry
      loop does not catch or the exhaustion of a chunk's attempts. */
  lemma {:induction false} RunKeeps(chunk: ChunkFn, link: Link, op: Op, log: seq<Frame>, base: int, length: int, cap: nat,
                                    idx: nat, out: seq<byte>, tries: seq<nat>)
    requires Sound(chunk, link, op)
    ensures var r := Run(chunk, link, log, base, length, cap, idx, out, tries);
      && |log| <= |r.log|
      && r.log[..|log|] == log
      && (!op.ReadOp? ==> r.data == out)
      && (r.error.Some? ==> FinalError(r.error.value))
    decreases Remaining(link, log)
  {
    if idx < length {
      var size: nat := Min(cap, length - idx);
      var t := chunk(log, base + idx, size, idx);
      assert ChunkLaw(t, op, link, log, base + idx, size, idx);
      if t.result.Ok? {
        RunKeeps(chunk, link, op, t.log, base, length, cap, idx + size, out + t.result.value, tries + [t.attempts]);
        var r := Run(chunk, link, log, base, length, cap, idx, out, tries);
        assert r.log[..|log|] == r.log[..|t.log|][..|log|];
        if !op.ReadOp? {
          assert out + t.result.value == out;
        }
      }
    }
  }

  /** Where in the log each chunk of a run ends, as long as the chunks
      succeed. */
  function Ends(chunk: ChunkFn, log: seq<Frame>, base: int, plan: seq<Span>): seq<nat>
    decreases |plan|
  {
    if plan == [] then []
    else
      var t := chunk(log, base + plan[0].off, plan[0].size, plan[0].off);
      if t.result.Err? then [] else [|t.log|] + Ends(chunk, t.log, base, plan[1..])
  }

  /** The bytes of `data` that chunk `c` of a read accounts for. */
  function ChunkData(op: Op, data: seq<byte>, c: Span): seq<byte>
  {
    if op.ReadOp? then Slice(data, c.off, c.off + c.size) else []
  }

  /** Positions [prev, e) of `full` are the frames of chunk `c`, at least
      one. */
  predicate ChunkSent(full: seq<Frame>, prev: int, e: int, op: Op, base: int, c: Span)
  {
    && 0 <= prev < e <= |full|
    && forall i :: prev <= i < e ==> SentFor(full[i], op, base + c.off, c.size, c.off)
  }

  /** Positions [prev, e) of `full` are the frames of chunk `c`, and the
      last attempt among them, ending at `e`, was confirmed. */
  predicate ChunkDone(full: seq<Frame>, prev: int, e: int, op: Op, link: Link, base: int, c: Span, data: seq<byte>)
  {
    && ChunkSent(full, prev, e, op, base, c)
    && ConfirmedAt(full[..e], op, link, base + c.off, c.size, c.off, ChunkData(op, data, c))
  }

  /** From position `start` on, `full` is made of the frames of the chunks
      of `plan`, one after another in plan order and each confirmed: the
      first chunk's end at `ends[0]`, the rest of the plan's after it. */
  predicate Completed(full: seq<Frame>, start: int, op: Op, link: Link, base: int, plan: seq<Span>, data: seq<byte>, ends: seq<nat>)
    decreases |plan|
  {
    && |ends| == |plan|
    && if plan == [] then start == |full|
       else
         && ChunkDone(full, start, ends[0], op, link, base, plan[0], data)
         && Completed(full, ends[0], op, link, base, plan[1..], data, ends[1..])
  }

  /** From position `start` on, `full` is made of the frames of the chunks
      of `plan`, one after another in plan order, the first ending at
      `ends[0]`. */
  predicate Sent(full: seq<Frame>, start: int, op: Op, base: int, plan: seq<Span>, ends: seq<nat>)
    decreases |plan|
  {
    && |ends| == |plan|
    && if plan == [] then start == |full|
       else
         && ChunkSent(full, start, ends[0], op, base, plan[0])
         && Sent(full, ends[0], op, base, plan[1..], ends[1..])
  }

  lemma {:induction false} CompletedSent(full: seq<Frame>, start: int, op: Op, link: Link, base: int, plan: seq<Span>,
                                         data: seq<byte>, ends: seq<nat>)
    requires Completed(full, start, op, link, base, plan, data, ends)
    ensures Sent(full, start, op, base, plan, ends)
    decreases |plan|
  {
    if plan != [] {
      CompletedSent(full, ends[0], op, link, base, plan[1..], data, ends[1..]);
    }
  }

  /** Read chunk by chunk: the k-th chunk of the plan is done between the
      end of the one before it and `ends[k]`, and the last ends the log. */
  lemma {:induction false} CompletedChunk(full: seq<Frame>, start: int, op: Op, link: Link, base: int, plan: seq<Span>,
                                          data: seq<byte>, ends: seq<nat>, k: nat)
    requires Completed(full, start, op, link, base, plan, data, ends)
    requires k < |plan|
    ensures ChunkDone(full, if k == 0 then start else ends[k - 1], ends[k], op, link, base, plan[k], data)
    ensures k == |plan| - 1 ==> ends[k] == |full|
    decreases k
  {
    if k > 0 {
      CompletedChunk(full, ends[0], op, link, base, plan[1..], data, ends[1..], k - 1);
      assert plan[1..][k - 1] == plan[k];
      assert ends[1..][k - 1] == ends[k];
      assert k - 1 == 0 || ends[1..][k - 2] == ends[k - 1];
    } else if |plan| == 1 {
      assert plan[1..] == [];
    }
  }

  /** Each chunk starts where the one before it ends. */
  predicate Contiguous(plan: seq<Span>)
  {
    forall i :: 0 <= i < |plan| - 1 ==> plan[i + 1].off == plan[i].off + plan[i].size
  }

  /** A run without error completed every chunk of its plan in order: its
      frames split into one confirmed group per chunk, and a read's bytes
      for each chunk are the data its READ frame was answered with. */
  lemma {:induction false} RunPlanCompleted(chunk: ChunkFn, link: Link, op: Op, log: seq<Frame>, base: int, plan: seq<Span>,
                                            out: seq<byte>, tries: seq<nat>)
    requires Sound(chunk, link, op) && Confirming(chunk, link, op)
    requires Contiguous(plan)
    requires op.ReadOp? && plan != [] ==> plan[0].off == |out|
    ensures var r := RunPlan(chunk, log, base, plan, out, tries);
      r.error.None? ==> Completed(r.log, |log|, op, link, base, plan, r.data, Ends(chunk, log, base, plan))
    decreases |plan|
  {
    var r := RunPlan(chunk, log, base, plan, out, tries);
    if plan != [] && r.error.None? {
      var c := plan[0];
      var t := chunk(log, base + c.off, c.size, c.off);
      assert ChunkLaw(t, op, link, log, base + c.off, c.size, c.off);
      assert Remaining(link, t.log) < Remaining(link, log);
      var rest, out' := plan[1..], out + t.result.value;
      assert Contiguous(rest) by {
        forall i | 0 <= i < |rest| - 1 ensures rest[i + 1].off == rest[i].off + rest[i].size {
          assert rest[i] == plan[i + 1] && rest[i + 1] == plan[i + 2];
        }
      }
      assert op.ReadOp? && rest != [] ==> rest[0].off == |out'| by {
        if op.ReadOp? && rest != [] {
          assert rest[0] == plan[1];
        }
      }
      RunPlanCompleted(chunk, link, op, t.log, base, rest, out', tries + [t.attempts]);
      RunPlanLog(chunk, link, op, t.log, base, rest, out', tries + [t.attempts]);
      RunPlanData(chunk, link, op, t.log, base, rest, out', tries + [t.attempts]);
      FirstChunkDone(r.log, r.data, op, link, log, base, c, out, t);
      var ends := Ends(chunk, log, base, plan);
      assert ends == [|t.log|] + Ends(chunk, t.log, base, rest);
      assert ends[1..] == Ends(chunk, t.log, base, rest);
    }
  }

  /** The first chunk of a run that went on: its frames are the ones
      between the log before it and the log after it. */
  lemma FirstChunkDone(full: seq<Frame>, data: seq<byte>, op: Op, link: Link, log: seq<Frame>, base: int, c: Span,
                       out: seq<byte>, t: Tried)
    requires ChunkLaw(t, op, link, log, base + c.off, c.size, c.off)
    requires t.result.Ok? && ConfirmedAt(t.log, op, link, base + c.off, c.size, c.off, t.result.value)
    requires |log| < |t.log| <= |full| && full[..|t.log|] == t.log
    requires |out + t.result.value| <= |data| && data[..|out + t.result.value|] == out + t.result.value
    requires op.ReadOp? ==> c.off == |out|
    ensures ChunkDone(full, |log|, |t.log|, op, link, base, c, data)
  {
    forall i | |log| <= i < |t.log| ensures SentFor(full[i], op, base + c.off, c.size, c.off) {
      assert full[i] == t.log[i];
    }
    assert ChunkData(op, data, c) == t.result.value by {
      if op.ReadOp? {
        assert data[c.off..c.off + c.size] == (out + t.result.value)[|out|..];
      }
    }
  }

  /** What a whole transfer of `length` bytes from `base` guarantees: the
      frames it appends all belong to its planned chunks, a read without
      error returns `length` bytes, every chunk took one to three attempts,
      and with a cap of zero nothing moves. */
  lemma TransferOutcome(op: Op, link: Link, log: seq<Frame>, base: int, length: int, cap: nat)
    ensures Progressing(RetryFn(op, link), link)
    ensures var r := Run(RetryFn(op, link), link, log, base, length, cap, 0, [], []);
      && |log| <= |r.log|
      && r.log[..|log|] == log
      && (!op.ReadOp? ==> r.data == [])
      && (r.error.Some? ==> FinalError(r.error.value))
      && (cap > 0 ==> forall i :: |log| <= i < |r.log| ==> FrameOfPlan(r.log[i], op, base, Plan(length, cap, 0)))
      && (cap > 0 && r.error.None? ==> |r.tries| == |Plan(length, cap, 0)|)
      && (cap > 0 ==> forall i :: 0 <= i < |r.tries| ==> 1 <= r.tries[i] <= ATTEMPTS)
      && (cap > 0 && op.ReadOp? && r.error.None? ==> |r.data| == Max(0, length))
      && (cap == 0 && length > 0 ==> r.error.Some? && r.data == [])
  {
    var chunk := RetryFn(op, link);
    RetrySound(op, link);
    RunKeeps(chunk, link, op, log, base, length, cap, 0, [], []);
    if cap > 0 {
      var p := Plan(length, cap, 0);
      RunFollowsPlan(chunk, link, log, base, length, cap, 0, [], []);
      RunPlanLog(chunk, link, op, log, base, p, [], []);
      RunPlanCount(chunk, log, base, p, [], []);
      RunPlanTries(chunk, link, op, log, base, p, [], []);
      RunPlanData(chunk, link, op, log, base, p, [], []);
      PlanTotal(length, cap, 0);
    } else if length > 0 {
      ZeroCapNeverCompletes(chunk, link, log, base, length, 0, [], []);
    }
  }

  /** A transfer without error did every chunk of its plan, in plan order,
      each with replies that confirm it. */
  lemma TransferCompleted(op: Op, link: Link, log: seq<Frame>, base: int, length: int, cap: nat)
    requires cap > 0
    ensures Progressing(RetryFn(op, link), link)
    ensures var r := Run(RetryFn(op, link), link, log, base, length, cap, 0, [], []);
      r.error.None? ==> ChunksCompleted(r.log, |log|, op, link, base, Plan(length, cap, 0), r.data)
  {
    var chunk := RetryFn(op, link);
    var p := Plan(length, cap, 0);
    RetrySound(op, link);
    RetryConfirming(op, link);
    PlanShape(length, cap, 0);
    RunFollowsPlan(chunk, link, log, base, length, cap, 0, [], []);
    RunPlanCompleted(chunk, link, op, log, base, p, [], []);
  }

  /** The frames from `start` on are the confirmed chunks of `plan`, one
      after another. */
  ghost predicate ChunksCompleted(full: seq<Frame>, start: int, op: Op, link: Link, base: int, plan: seq<Span>, data: seq<byte>)
  {
    exists ends: seq<nat> :: Completed(full, start, op, link, base, plan, data, ends)
  }

  /** The frames from `start` on are those of the chunks of `plan`, one
      after another. */
  ghost predicate ChunksSent(full: seq<Frame>, start: int, op: Op, base: int, plan: seq<Span>)
  {
    exists ends: seq<nat> :: Sent(full, start, op, base, plan, ends)
  }

  lemma ChunksCompletedSent(full: seq<Frame>, start: int, op: Op, link: Link, base: int, plan: seq<Span>, data: seq<byte>)
    requires ChunksCompleted(full, start, op, link, base, plan, data)
    ensures ChunksSent(full, start, op, base, plan)
  {
    var ends: seq<nat> :| Completed(full, start, op, link, base, plan, data, ends);
    CompletedSent(full, start, op, link, base, plan, data, ends);
  }

  /** A frame of a write chunk carries the chunk's address, its size and
      the image bytes `data[off:off + size]`. */
  lemma WriteFrameContents(f: Frame, data: seq<byte>, addr: int, c: Span, cap: nat)
    requires PlannedChunk(c, |data|, cap)
    requires SentFor(f, WriteOp(data), addr + c.off, c.size, c.off)
    ensures f.cmd == WRIT
    ensures SpanArgs(addr + c.off, c.size).Some?
    ensures f.args == SpanArgs(addr + c.off, c.size).value + data[c.off..c.off + c.size]
  {
  }

  // ---------------------------------------------------------------------
  // The alignment check of `erase`: `addr & (sector_size - 1)`

  /** The test `erase` refuses to go on with. */
  predicate EraseMisaligned(info: BlInfo, addr: int, length: int)
  {
    AndMask(addr, info.SectorSize() - 1) != 0 || AndMask(length, info.SectorSize() - 1) != 0
  }

  /** With a power-of-two sector size `erase` goes on exactly when the
      address and the length are multiples of it. */
  lemma EraseAlignment(info: BlInfo, addr: int, length: int, k: nat)
    requires k < 32 && info.SectorSize() == Pow2(k)
    ensures EraseMisaligned(info, addr, length) <==> addr % Pow2(k) != 0 || length % Pow2(k) != 0
  {
    LowMask(addr, k);
    LowMask(length, k);
  }

  /** With a sector size of zero the mask keeps every bit: only an erase of
      nothing at address zero goes on. */
  lemma EraseZeroSector(info: BlInfo, addr: int, length: int)
    requires info.SectorSize() == 0
    ensures EraseMisaligned(info, addr, length) <==> addr != 0 || length != 0
  {
  }

  /** With a sector size that is not a power of two the mask test is not an
      alignment test: with 3000-byte sectors an erase of one sector at
      address 3000 is refused. */
  lemma EraseOddSector(info: BlInfo)
    requires info.SectorSize() == 3000
    ensures EraseMisaligned(info, 3000, 3000)
  {
    MaskOf3000();
    assert info.SectorSize() - 1 == 2999;
  }

  /** 3000 & 2999 == 2992, bit by bit from the top. */
  lemma MaskOf3000()
    ensures AndMask(3000, 2999) == 2992
  {
    assert BitAnd(1, 1) == 1;
    assert BitAnd(2, 2) == 2;
    assert BitAnd(5, 5) == 5;
    assert BitAnd(11, 11) == 11;
    assert BitAnd(23, 23) == 23;
    assert BitAnd(46, 46) == 46;
    assert BitAnd(93, 93) == 93;
    assert BitAnd(187, 187) == 187;
    assert BitAnd(375, 374) == 374;
    assert BitAnd(750, 749) == 748;
    assert BitAnd(1500, 1499) == 1496;
    assert BitAnd(3000, 2999) == 2992;
  }

  // ---------------------------------------------------------------------
  // `read`, `erase` and `write` once the device is known

  /** An optional argument: its value, or `d` when the caller left it out. */
  function OrDefault(x: Option<int>, d: int): int
  {
    if x.None? then d else x.value
  }

  /** `read`: from `addr` (the flash start by default), `length` bytes (up
      to the flash end by default), in chunks of `max_data_len`. */
  function ReadSpec(info: BlInfo, addr: Option<int>, length: Option<int>, link: Link, log: seq<Frame>): Transfer
  {
    var a := OrDefault(addr, info.flashStart);
    var n := OrDefault(length, info.FlashEnd() - a);
    RetryProgressing(ReadOp, link);
    Run(RetryFn(ReadOp, link), link, log, a, n, info.maxDataLen, 0, [], [])
  }

  /** `erase`: from `addr` (the erase start by default), `length` bytes (up
      to the flash end by default), refused before anything is sent unless
      both pass the sector mask, in chunks of at most 0xfffff000 bytes. */
  function EraseSpec(info: BlInfo, addr: Option<int>, length: Option<int>, link: Link, log: seq<Frame>): Transfer
  {
    var a := OrDefault(addr, info.eraseStart);
    var n := OrDefault(length, info.FlashEnd() - a);
    if EraseMisaligned(info, a, n) then Transfer(Some(Misaligned), [], log, [])
    else
      RetryProgressing(EraseOp, link);
      Run(RetryFn(EraseOp, link), link, log, a, n, ERASE_CAP, 0, [], [])
  }

  /** `write` once the image is loaded: refused before anything is sent
      unless the image lies in the flash, then sent in chunks of
      `max_data_len`. */
  function WriteSpec(info: BlInfo, addr: int, data: seq<byte>, link: Link, log: seq<Frame>): Transfer
  {
    if addr < info.flashStart then Transfer(Some(OutOfRange), [], log, [])
    else if addr + |data| > info.FlashEnd() then Transfer(Some(OutOfRange), [], log, [])
    else
      RetryProgressing(WriteOp(data), link);
      Run(RetryFn(WriteOp(data), link), link, log, addr, |data|, info.maxDataLen, 0, [], [])
  }

  method Read(info: BlInfo, addr: Option<int>, length: Option<int>, link: Link, log: seq<Frame>) returns (r: Transfer)
    ensures r == ReadSpec(info, addr, length, link, log)
  {
    var a := OrDefault(addr, info.flashStart);
    var n := OrDefault(length, info.FlashEnd() - a);
    RetryProgressing(ReadOp, link);
    r := RunChunks(RetryFn(ReadOp, link), link, log, a, n, info.maxDataLen);
  }

  method Erase(info: BlInfo, addr: Option<int>, length: Option<int>, link: Link, log: seq<Frame>) returns (r: Transfer)
    ensures r == EraseSpec(info, addr, length, link, log)
  {
    var a := OrDefault(addr, info.eraseStart);
    var n := OrDefault(length, info.FlashEnd() - a);
    if EraseMisaligned(info, a, n) {
      return Transfer(Some(Misaligned), [], log, []);
    }
    RetryProgressing(EraseOp, link);
    r := RunChunks(RetryFn(EraseOp, link), link, log, a, n, ERASE_CAP);
  }

  method Write(info: BlInfo, addr: int, data: seq<byte>, link: Link, log: seq<Frame>) returns (r: Transfer)
    ensures r == WriteSpec(info, addr, data, link, log)
  {
    if addr < info.flashStart || addr + |data| > info.FlashEnd() {
      return Transfer(Some(OutOfRange), [], log, []);
    }
    RetryProgressing(WriteOp(data), link);
    r := RunChunks(RetryFn(WriteOp(data), link), link, log, addr, |data|, info.maxDataLen);
  }

  // ---------------------------------------------------------------------
  // What each command guarantees

  /** `f` is a frame of one of the chunks a transfer of `length` bytes from
      `base` visits: one of at most `cap` bytes, inside the range. */
  ghost predicate ChunkFrame(f: Frame, op: Op, base: int, length: int, cap: nat)
  {
    exists c: Span :: PlannedChunk(c, length, cap) && SentFor(f, op, base + c.off, c.size, c.off)
  }

  /** `f` is the WRIT frame of one chunk of `data` written at `addr`: the
      chunk's address and size, then the image bytes `data[off:off + size]`. */
  ghost predicate WriteFrame(f: Frame, data: seq<byte>, addr: int, cap: nat)
  {
    exists c: Span ::
      && PlannedChunk(c, |data|, cap)
      && SpanArgs(addr + c.off, c.size).Some?
      && f == Frame(WRIT, SpanArgs(addr + c.off, c.size).value + data[c.off..c.off + c.size])
  }

  lemma PlanFrame(f: Frame, op: Op, base: int, length: int, cap: nat, plan: seq<Span>)
    requires FrameOfPlan(f, op, base, plan)
    requires forall k :: 0 <= k < |plan| ==> PlannedChunk(plan[k], length, cap)
    ensures ChunkFrame(f, op, base, length, cap)
  {
    var j :| 0 <= j < |plan| && SentFor(f, op, base + plan[j].off, plan[j].size, plan[j].off);
    ChunkFrameOf(f, op, base, length, cap, plan[j]);
  }

  lemma ChunkFrameOf(f: Frame, op: Op, base: int, length: int, cap: nat, c: Span)
    requires PlannedChunk(c, length, cap) && SentFor(f, op, base + c.off, c.size, c.off)
    ensures ChunkFrame(f, op, base, length, cap)
  {
  }

  lemma WriteFrameOf(f: Frame, data: seq<byte>, addr: int, cap: nat)
    requires ChunkFrame(f, WriteOp(data), addr, |data|, cap)
    ensures WriteFrame(f, data, addr, cap)
  {
    var c: Span :| PlannedChunk(c, |data|, cap) && SentFor(f, WriteOp(data), addr + c.off, c.size, c.off);
    WriteFrameContents(f, data, addr, c, cap);
  }

  /** `read`: only READ and CRCC frames of its chunks are sent, a read
      without error returns every byte of the range, chunk by chunk in
      order, each chunk's bytes being the reply to its READ frame and
      checked by the CRC-32 its CRCC frame was answered with, and with a
      `max_data_len` of zero a read of anything never completes. */
  lemma ReadOutcome(info: BlInfo, addr: Option<int>, length: Option<int>, link: Link, log: seq<Frame>)
    ensures var a := OrDefault(addr, info.flashStart);
      var n := OrDefault(length, info.FlashEnd() - a);
      var r := ReadSpec(info, addr, length, link, log);
      && |log| <= |r.log|
      && r.log[..|log|] == log
      && (r.error.Some? ==> FinalError(r.error.value))
      && (info.maxDataLen > 0 && r.error.None? ==> |r.data| == Max(0, n))
      && (info.maxDataLen == 0 && n > 0 ==> r.error.Some? && r.data == [])
      && (info.maxDataLen > 0 ==> forall i :: |log| <= i < |r.log| ==> ChunkFrame(r.log[i], ReadOp, a, n, info.maxDataLen))
      && (info.maxDataLen > 0 && r.error.None? ==> ChunksCompleted(r.log, |log|, ReadOp, link, a, Plan(n, info.maxDataLen, 0), r.data))
  {
    var a := OrDefault(addr, info.flashStart);
    var n := OrDefault(length, info.FlashEnd() - a);
    TransferOutcome(ReadOp, link, log, a, n, info.maxDataLen);
    var r := ReadSpec(info, addr, length, link, log);
    if info.maxDataLen > 0 {
      TransferCompleted(ReadOp, link, log, a, n, info.maxDataLen);
      PlanShape(n, info.maxDataLen, 0);
      forall i | |log| <= i < |r.log| ensures ChunkFrame(r.log[i], ReadOp, a, n, info.maxDataLen) {
        PlanFrame(r.log[i], ReadOp, a, n, info.maxDataLen, Plan(n, info.maxDataLen, 0));
      }
    }
  }

  /** `erase`: refused before any frame unless address and length pass the
      sector mask; otherwise only ERAS frames of chunks of at most
      0xfffff000 bytes inside the range are sent, and an erase without
      error had every chunk, in order, acknowledged. */
  lemma EraseOutcome(info: BlInfo, addr: Option<int>, length: Option<int>, link: Link, log: seq<Frame>)
    ensures var a := OrDefault(addr, info.eraseStart);
      var n := OrDefault(length, info.FlashEnd() - a);
      var r := EraseSpec(info, addr, length, link, log);
      && (EraseMisaligned(info, a, n) ==> r == Transfer(Some(Misaligned), [], log, []))
      && (!EraseMisaligned(info, a, n) ==>
            && |log| <= |r.log|
            && r.log[..|log|] == log
            && r.data == []
            && (r.error.Some? ==> FinalError(r.error.value))
            && (r.error.None? ==> |r.tries| == |Plan(n, ERASE_CAP, 0)|)
            && (forall i :: |log| <= i < |r.log| ==> ChunkFrame(r.log[i], EraseOp, a, n, ERASE_CAP))
            && (r.error.None? ==> ChunksCompleted(r.log, |log|, EraseOp, link, a, Plan(n, ERASE_CAP, 0), [])))
  {
    var a := OrDefault(addr, info.eraseStart);
    var n := OrDefault(length, info.FlashEnd() - a);
    if !EraseMisaligned(info, a, n) {
      TransferOutcome(EraseOp, link, log, a, n, ERASE_CAP);
      TransferCompleted(EraseOp, link, log, a, n, ERASE_CAP);
      var r := EraseSpec(info, addr, length, link, log);
      PlanShape(n, ERASE_CAP, 0);
      forall i | |log| <= i < |r.log| ensures ChunkFrame(r.log[i], EraseOp, a, n, ERASE_CAP) {
        PlanFrame(r.log[i], EraseOp, a, n, ERASE_CAP, Plan(n, ERASE_CAP, 0));
      }
    }
  }

  /** `write`: refused before any frame exactly when the image does not lie
      in the flash (`_is_in_flash`); otherwise it sends only the WRIT frames
      of `data[idx:idx + size]` at `addr + idx`, and a write without error
      had every chunk, in order, confirmed by the CRC-32 of its bytes; an
      empty image sends nothing. */
  lemma WriteOutcome(info: BlInfo, addr: int, data: seq<byte>, link: Link, log: seq<Frame>)
    ensures var r := WriteSpec(info, addr, data, link, log);
      && (!IsInFlash(addr, |data|, info) <==> r.error == Some(OutOfRange))
      && (!IsInFlash(addr, |data|, info) ==> r == Transfer(Some(OutOfRange), [], log, []))
      && (IsInFlash(addr, |data|, info) ==>
            && |log| <= |r.log|
            && r.log[..|log|] == log
            && r.data == []
            && (r.error.Some? ==> FinalError(r.error.value))
            && (info.maxDataLen == 0 && |data| > 0 ==> r.error.Some?)
            && (info.maxDataLen > 0 && r.error.None? ==> |r.tries| == |Plan(|data|, info.maxDataLen, 0)|)
            && (info.maxDataLen > 0 ==> forall i :: |log| <= i < |r.log| ==> WriteFrame(r.log[i], data, addr, info.maxDataLen))
            && (info.maxDataLen > 0 && r.error.None? ==>
                  ChunksCompleted(r.log, |log|, WriteOp(data), link, addr, Plan(|data|, info.maxDataLen, 0), []))
            && (|data| == 0 ==> r == Transfer(None, [], log, [])))
  {
    if IsInFlash(addr, |data|, info) {
      TransferOutcome(WriteOp(data), link, log, addr, |data|, info.maxDataLen);
      var r := WriteSpec(info, addr, data, link, log);
      if info.maxDataLen > 0 {
        TransferCompleted(WriteOp(data), link, log, addr, |data|, info.maxDataLen);
        PlanShape(|data|, info.maxDataLen, 0);
        forall i | |log| <= i < |r.log| ensures WriteFrame(r.log[i], data, addr, info.maxDataLen) {
          PlanFrame(r.log[i], WriteOp(data), addr, |data|, info.maxDataLen, Plan(|data|, info.maxDataLen, 0));
          WriteFrameOf(r.log[i], data, addr, info.maxDataLen);
        }
      }
    }
  }
}
