/** The command protocol of the bootloader (cli.py): a command is four ASCII
    bytes followed by its arguments; the device echoes what it received,
    then "OKOK", then the reply.  The serial port is replaced by a finite
    record of what each exchange with the device yields, and the wall-clock
    deadline by the end of that record. */
module Protocol {
  import opened Bytes
  import opened Errors
  import opened DeviceInfo

  // The command words in ASCII: "SYNC", "SYNCPICO", "INFO", "READ", "CRCC",
  // "ERAS", "WRIT", "SEAL", "GOGO" and the acknowledgement "OKOK".
  const SYNC: seq<byte> := [0x53, 0x59, 0x4e, 0x43]
  const SYNCPICO: seq<byte> := [0x53, 0x59, 0x4e, 0x43, 0x50, 0x49, 0x43, 0x4f]
  const INFO: seq<byte> := [0x49, 0x4e, 0x46, 0x4f]
  const READ: seq<byte> := [0x52, 0x45, 0x41, 0x44]
  const CRCC: seq<byte> := [0x43, 0x52, 0x43, 0x43]
  const ERAS: seq<byte> := [0x45, 0x52, 0x41, 0x53]
  const WRIT: seq<byte> := [0x57, 0x52, 0x49, 0x54]
  const SEAL: seq<byte> := [0x53, 0x45, 0x41, 0x4c]
  const GOGO: seq<byte> := [0x47, 0x4f, 0x47, 0x4f]
  const OKOK: seq<byte> := [0x4f, 0x4b, 0x4f, 0x4b]

  /** The reply size `info` asks for. */
  const INFO_REPLY: nat := 24
  /** The reply size of CRCC and WRIT: one little-endian CRC-32. */
  const CRC_REPLY: nat := 4

  /** What one `send_cmd` writes: the command, then its arguments. */
  datatype Frame = Frame(cmd: seq<byte>, args: seq<byte>)
  {
    function Length(): nat { |cmd| + |args| }
  }

  // ---------------------------------------------------------------------
  // Argument frames

  /** `x.to_bytes(length=4, byteorder="little")`, which raises OverflowError
      for a value outside [0, 2^32). */
  function ToLE32(x: int): (r: Option<seq<byte>>)
    ensures r.Some? <==> 0 <= x < U32_LIMIT
    ensures r.Some? ==> |r.value| == 4 && FromLE32(r.value) == x
  {
    if 0 <= x < U32_LIMIT then
      FromLE32OfLE32(x);
      Some(LE32(x))
    else None
  }

  /** The address-and-size prefix of READ, CRCC, ERAS, WRIT and SEAL. */
  function SpanArgs(addr: int, size: int): Option<seq<byte>>
  {
    var a, s := ToLE32(addr), ToLE32(size);
    if a.None? || s.None? then None else Some(a.value + s.value)
  }

  /** The 8-byte prefix exists exactly when both values fit in 32 bits, and
      it decodes back to the address, then the size. */
  lemma SpanArgsDecode(addr: int, size: int)
    ensures SpanArgs(addr, size).Some? <==> 0 <= addr < U32_LIMIT && 0 <= size < U32_LIMIT
    ensures SpanArgs(addr, size).Some? ==>
      var v := SpanArgs(addr, size).value;
      |v| == 8 && FromLE32(v[..4]) == addr && FromLE32(v[4..8]) == size
  {
    if SpanArgs(addr, size).Some? {
      var v := SpanArgs(addr, size).value;
      assert v[..4] == ToLE32(addr).value;
      assert v[4..8] == ToLE32(size).value;
    }
  }

  /** Two argument prefixes are equal only for equal addresses and sizes. */
  lemma SpanArgsInjective(a1: int, s1: int, a2: int, s2: int)
    requires SpanArgs(a1, s1).Some? && SpanArgs(a1, s1) == SpanArgs(a2, s2)
    ensures a1 == a2 && s1 == s2
  {
    SpanArgsDecode(a1, s1);
    SpanArgsDecode(a2, s2);
  }

  // ---------------------------------------------------------------------
  // send_cmd

  /** What one `send_cmd` call meets at the port: the successive
      `read_all()` results before the deadline, or a SerialException from
      opening, writing or reading the port. */
  datatype Exchange = Replies(blocks: seq<seq<byte>>) | Broken

  /** The exchanges of a session, in the order the tool sends commands. */
  type Link = seq<Exchange>

  /** The exchange the `n`th command meets; past the end of the record the
      device stays silent until the deadline. */
  function ExchangeAt(link: Link, n: nat): Exchange
  {
    if n < |link| then link[n] else Replies([])
  }

  /** The loop's exit test: "OKOK" right after the echoed command and at
      least `respSize` bytes after it. */
  predicate Acknowledged(resp: seq<byte>, cmdLen: nat, respSize: nat)
  {
    Slice(resp, cmdLen, cmdLen + 4) == OKOK && |resp| >= cmdLen + 4 + respSize
  }

  /** The exit test says that the marker sits at offset `cmdLen`. */
  lemma AcknowledgedMeans(resp: seq<byte>, cmdLen: nat, respSize: nat)
    ensures Acknowledged(resp, cmdLen, respSize) <==>
      |resp| >= cmdLen + 4 + respSize && resp[cmdLen..cmdLen + 4] == OKOK
  {
  }

  /** The scanning loop of `send_cmd`, from the accumulated `acc` on. */
  function Scan(blocks: seq<seq<byte>>, acc: seq<byte>, cmdLen: nat, respSize: nat): (r: Result<seq<byte>>)
    ensures r.Ok? ==> |r.value| >= respSize
    ensures r.Err? ==> r.error.Timeout?
    decreases |blocks|
  {
    if blocks == [] then Err(Timeout(acc))
    else
      var resp := acc + blocks[0];
      if Acknowledged(resp, cmdLen, respSize) then Ok(resp[cmdLen + 4..])
      else Scan(blocks[1..], resp, cmdLen, respSize)
  }

  /** One `send_cmd(port, frame.cmd, frame.args, resp_size=respSize)`. */
  function Transact(ex: Exchange, frame: Frame, respSize: nat): Result<seq<byte>>
  {
    match ex
    case Broken => Err(PortFailure)
    case Replies(blocks) => Scan(blocks, [], frame.Length(), respSize)
  }

  /** `send_cmd`: accumulate what the port yields until the exit test holds,
      and fail with everything received once the deadline passes. */
  method SendCmd(ex: Exchange, frame: Frame, respSize: nat) returns (r: Result<seq<byte>>)
    ensures r == Transact(ex, frame, respSize)
  {
    if ex.Broken? {
      return Err(PortFailure);
    }
    var cmdLen := |frame.cmd| + |frame.args|;
    var totalLen := cmdLen + 4 + respSize;
    var resp: seq<byte> := [];
    var i := 0;
    while i < |ex.blocks|
      invariant 0 <= i <= |ex.blocks|
      invariant Scan(ex.blocks, [], cmdLen, respSize) == Scan(ex.blocks[i..], resp, cmdLen, respSize)
    {
      resp := resp + ex.blocks[i];
      if Slice(resp, cmdLen, cmdLen + 4) == OKOK && |resp| >= totalLen {
        return Ok(resp[cmdLen + 4..]);
      }
      i := i + 1;
    }
    return Err(Timeout(resp));
  }

  /** Everything the port yields in the given blocks, in order. */
  function Flatten(blocks: seq<seq<byte>>): seq<byte>
    decreases |blocks|
  {
    if blocks == [] then [] else blocks[0] + Flatten(blocks[1..])
  }

  /** What has arrived after the first `k` blocks. */
  function Received(blocks: seq<seq<byte>>, k: nat): seq<byte>
    requires k <= |blocks|
  {
    Flatten(blocks[..k])
  }

  lemma ReceivedStep(blocks: seq<seq<byte>>, k: nat)
    requires 1 <= k <= |blocks|
    ensures Received(blocks, k) == blocks[0] + Received(blocks[1..], k - 1)
  {
    assert blocks[..k][1..] == blocks[1..][..k - 1];
  }

  /** The `k`th block is the first after which the exit test holds. */
  predicate FirstAcknowledged(blocks: seq<seq<byte>>, acc: seq<byte>, cmdLen: nat, respSize: nat, k: nat)
    requires 1 <= k <= |blocks|
  {
    && Acknowledged(acc + Received(blocks, k), cmdLen, respSize)
    && forall j :: 1 <= j < k ==> !Acknowledged(acc + Received(blocks, j), cmdLen, respSize)
  }

  /** The scan succeeds exactly when the exit test holds after some block;
      it then returns everything after the marker as it stood after the
      first such block, which may be longer than `respSize`.  Otherwise it
      fails with all that arrived. */
  lemma {:induction false} ScanResult(blocks: seq<seq<byte>>, acc: seq<byte>, cmdLen: nat, respSize: nat)
    ensures var r := Scan(blocks, acc, cmdLen, respSize);
      && (r.Ok? ==> exists k :: 1 <= k <= |blocks| && FirstAcknowledged(blocks, acc, cmdLen, respSize, k)
                                && r.value == (acc + Received(blocks, k))[cmdLen + 4..])
      && (r.Err? ==> r == Err(Timeout(acc + Flatten(blocks)))
                     && forall k :: 1 <= k <= |blocks| ==> !Acknowledged(acc + Received(blocks, k), cmdLen, respSize))
    decreases |blocks|
  {
    if blocks != [] {
      var resp := acc + blocks[0];
      var rest := blocks[1..];
      ReceivedStep(blocks, 1);
      assert acc + Received(blocks, 1) == resp;
      forall k | 1 <= k <= |blocks| ensures acc + Received(blocks, k) == resp + Received(rest, k - 1) {
        ReceivedStep(blocks, k);
      }
      if !Acknowledged(resp, cmdLen, respSize) {
        ScanResult(rest, resp, cmdLen, respSize);
        var r := Scan(rest, resp, cmdLen, respSize);
        if r.Ok? {
          var k' :| 1 <= k' <= |rest| && FirstAcknowledged(rest, resp, cmdLen, respSize, k')
                    && r.value == (resp + Received(rest, k'))[cmdLen + 4..];
          assert FirstAcknowledged(blocks, acc, cmdLen, respSize, k' + 1) by {
            forall j | 1 <= j < k' + 1 ensures !Acknowledged(acc + Received(blocks, j), cmdLen, respSize) {
              if j > 1 {
                assert !Acknowledged(resp + Received(rest, j - 1), cmdLen, respSize);
              }
            }
          }
        } else {
          assert Flatten(blocks) == blocks[0] + Flatten(rest);
          forall k | 1 <= k <= |blocks| ensures !Acknowledged(acc + Received(blocks, k), cmdLen, respSize) {
            if k > 1 {
              assert !Acknowledged(resp + Received(rest, k - 1), cmdLen, respSize);
            }
          }
        }
      } else {
        assert FirstAcknowledged(blocks, acc, cmdLen, respSize, 1);
      }
    }
  }

  /** A device that answers in one block with the echo, the marker and the
      reply completes the exchange with exactly that reply. */
  lemma ScanOneBlock(frame: Frame, reply: seq<byte>)
    ensures Transact(Replies([frame.cmd + frame.args + OKOK + reply]), frame, |reply|) == Ok(reply)
  {
    var resp := [] + (frame.cmd + frame.args + OKOK + reply);
    var n := frame.Length();
    assert resp[n..n + 4] == OKOK;
    assert resp[n + 4..] == reply;
  }

  // ---------------------------------------------------------------------
  // sync

  /** The outcome of one sync attempt on one port: the port could not be
      used, or the bytes `read_all()` returned after writing "SYNC". */
  datatype Probe = ProbeFailed | ProbeReply(bytes: seq<byte>)

  type PortName = string

  /** The answer of port `p` to attempt `a`. */
  type Prober = (PortName, nat) -> Probe

  const SYNC_ATTEMPTS: nat := 5

  /** Attempt `a` at port `p` was answered with "SYNCPICO". */
  predicate Synced(probe: Prober, p: PortName, a: nat)
  {
    probe(p, a) == ProbeReply(SYNCPICO)
  }

  /** Some of the five attempts at port `p` was answered. */
  predicate Answers(probe: Prober, p: PortName)
  {
    exists a :: 0 <= a < SYNC_ATTEMPTS && Synced(probe, p, a)
  }

  /** The ports `sync` tries: the given one only, or every available one. */
  function Candidates(port: Option<PortName>, available: seq<PortName>): seq<PortName>
  {
    if port.Some? then [port.value] else available
  }

  /** What `sync` returns: the first candidate that answers. */
  function SyncPorts(ports: seq<PortName>, probe: Prober): Result<PortName>
    decreases |ports|
  {
    if ports == [] then Err(NoDevice)
    else if Answers(probe, ports[0]) then Ok(ports[0])
    else SyncPorts(ports[1..], probe)
  }

  /** `sync` returns the first port, in list order, that answered one of its
      five attempts, and fails only when none did. */
  lemma {:induction false} SyncPortsFirst(ports: seq<PortName>, probe: Prober)
    ensures SyncPorts(ports, probe).Ok? <==> exists i :: 0 <= i < |ports| && Answers(probe, ports[i])
    ensures SyncPorts(ports, probe).Err? ==> SyncPorts(ports, probe) == Err(NoDevice)
    ensures SyncPorts(ports, probe).Ok? ==>
      exists i :: 0 <= i < |ports| && ports[i] == SyncPorts(ports, probe).value && Answers(probe, ports[i])
                  && forall j :: 0 <= j < i ==> !Answers(probe, ports[j])
    decreases |ports|
  {
    if ports != [] && !Answers(probe, ports[0]) {
      var rest := ports[1..];
      SyncPortsFirst(rest, probe);
      if SyncPorts(rest, probe).Ok? {
        var i :| 0 <= i < |rest| && rest[i] == SyncPorts(rest, probe).value && Answers(probe, rest[i])
                 && forall j :: 0 <= j < i ==> !Answers(probe, rest[j]);
        assert ports[i + 1] == rest[i];
        forall j | 0 <= j < i + 1 ensures !Answers(probe, ports[j]) {
          if j > 0 { assert ports[j] == rest[j - 1]; }
        }
      } else {
        forall i | 0 <= i < |ports| ensures !Answers(probe, ports[i]) {
          if i > 0 { assert ports[i] == rest[i - 1]; }
        }
      }
    }
  }

  /** With a port given, `sync` tries that port only. */
  lemma SyncGivenPort(p: PortName, available: seq<PortName>, probe: Prober)
    ensures SyncPorts(Candidates(Some(p), available), probe) == (if Answers(probe, p) then Ok(p) else Err(NoDevice))
  {
    assert [p][1..] == [];
  }

  /** `sync`: for each candidate port, up to five attempts, stopping at the
      first "SYNCPICO" reply; a port that cannot be used costs an attempt. */
  method Sync(port: Option<PortName>, available: seq<PortName>, probe: Prober) returns (r: Result<PortName>)
    ensures r == SyncPorts(Candidates(port, available), probe)
  {
    var ports := if port.Some? then [port.value] else available;
    var i := 0;
    while i < |ports|
      invariant 0 <= i <= |ports|
      invariant SyncPorts(ports, probe) == SyncPorts(ports[i..], probe)
    {
      var p := ports[i];
      var idx := 0;
      while idx < SYNC_ATTEMPTS
        invariant 0 <= idx <= SYNC_ATTEMPTS
        invariant forall a :: 0 <= a < idx ==> !Synced(probe, p, a)
      {
        var resp := probe(p, idx);
        if resp.ProbeFailed? {
          idx := idx + 1;
          continue;
        }
        if resp.bytes == SYNCPICO {
          assert Synced(probe, p, idx);
          assert ports[i..][0] == p;
          return Ok(p);
        }
        idx := idx + 1;
      }
      assert ports[i..][1..] == ports[i + 1..];
      i := i + 1;
    }
    return Err(NoDevice);
  }

  // ---------------------------------------------------------------------
  // info

  /** The port the tool talks to and what its bootloader reported; `log`
      lists the frame of every `send_cmd` call so far. */
  datatype Session = Session(port: PortName, info: BlInfo)

  datatype Connected = Connected(result: Result<Session>, log: seq<Frame>)

  /** `info`: sync, then one INFO command whose reply must be exactly the
      24-byte device description.  There is no second attempt. */
  function InfoSpec(port: Option<PortName>, available: seq<PortName>, probe: Prober, link: Link, log: seq<Frame>): Connected
  {
    var synced := SyncPorts(Candidates(port, available), probe);
    if synced.Err? then Connected(Err(synced.error), log)
    else
      var frame := Frame(INFO, []);
      var reply := Transact(ExchangeAt(link, |log|), frame, INFO_REPLY);
      if reply.Err? then Connected(Err(reply.error), log + [frame])
      else
        var decoded := FromBytes(reply.value);
        if decoded.Err? then Connected(Err(decoded.error), log + [frame])
        else Connected(Ok(Session(synced.value, decoded.value)), log + [frame])
  }

  /** `info` sends nothing when no port answers, and otherwise exactly one
      INFO frame; it succeeds exactly when that one exchange returned a
      24-byte reply, which it decodes.  A reply with trailing bytes after the
      24 is refused rather than truncated. */
  lemma InfoOnce(port: Option<PortName>, available: seq<PortName>, probe: Prober, link: Link, log: seq<Frame>)
    ensures var c := InfoSpec(port, available, probe, link, log);
      var synced := SyncPorts(Candidates(port, available), probe);
      var reply := Transact(ExchangeAt(link, |log|), Frame(INFO, []), INFO_REPLY);
      && (synced.Err? ==> c == Connected(Err(NoDevice), log))
      && (synced.Ok? ==> c.log == log + [Frame(INFO, [])])
      && (c.result.Ok? <==> synced.Ok? && reply.Ok? && |reply.value| == INFO_LENGTH)
      && (c.result.Ok? ==> c.result.value.port == synced.value && Encode(c.result.value.info) == reply.value)
      && (synced.Ok? && reply.Ok? && |reply.value| > INFO_LENGTH ==> c.result == Err(InfoLength(|reply.value|)))
  {
    SyncPortsFirst(Candidates(port, available), probe);
  }

  /** `info`, as the tool runs it. */
  method Info(port: Option<PortName>, available: seq<PortName>, probe: Prober, link: Link, log: seq<Frame>)
    returns (c: Connected)
    ensures c == InfoSpec(port, available, probe, link, log)
  {
    var synced := Sync(port, available, probe);
    if synced.Err? {
      return Connected(Err(synced.error), log);
    }
    var frame := Frame(INFO, []);
    var reply := SendCmd(ExchangeAt(link, |log|), frame, INFO_REPLY);
    var log' := log + [frame];
    if reply.Err? {
      return Connected(Err(reply.error), log');
    }
    var decoded := FromBytes(reply.value);
    if decoded.Err? {
      return Connected(Err(decoded.error), log');
    }
    return Connected(Ok(Session(synced.value, decoded.value)), log');
  }
}
