/** A reference receiver for ISO/IEC 13818-1 streams. It knows no PIDs in advance: it learns them
    from the program tables, whose checksums it verifies, and reassembles the PES packets of the
    H.264 and the AAC stream. It is written from the standard, not from the muxer. It does not look at
    the continuity counters; the receiver of `Continuity` does. */
module Demuxer {
  import opened Bytes
  import opened TsFormat
  import CrcReference

  // ----- packets -----

  datatype TsPacket = TsPacket(pid: int, pusi: bool, cc: int, pcr: Option<int>, payload: seq<byte>)

  function DecodePcr(b: seq<byte>): int
    requires |b| >= 5
  {
    At(b, 0) * 0x200_0000 + At(b, 1) * 0x2_0000 + At(b, 2) * 0x200 + At(b, 3) * 2 + At(b, 4) / 128
  }

  /** The 9-bit extension of a clock reference. */
  function DecodePcrExtension(b: seq<byte>): int
    requires |b| >= 6
  {
    At(b, 4) % 2 * 256 + At(b, 5)
  }

  /** Section 2.4.3.3; the adaptation field is the one of section 2.4.3.5, with no optional field but the
      clock reference. */
  function ParsePacket(pkt: packet): Option<TsPacket> {
    if pkt[0] != 0x47 then None
    else
      var pusi := pkt[1] / 64 % 2 == 1;
      var pid := Word16(pkt, 1) % 0x2000;
      var hasAdaptation := pkt[3] / 32 % 2 == 1;
      var hasPayload := pkt[3] / 16 % 2 == 1;
      var length := if hasAdaptation then At(pkt, 4) else 0;
      var start := if hasAdaptation then 5 + length else 4;
      if start > 188 || (length >= 1 && pkt[5] % 16 != 0) then None
      else
        var pcr := if length >= 7 && pkt[5] / 16 % 2 == 1 then Some(DecodePcr(pkt[6..12])) else None;
        Some(TsPacket(pid, pusi, pkt[3] % 16, pcr, if hasPayload then pkt[start..] else []))
  }

  // ----- program tables -----

  /** The section behind the pointer field: in long form, currently applicable, the only one of its
      table, complete and with a checksum that leaves no remainder. */
  function Section(payload: seq<byte>, tableId: byte): Option<seq<byte>> {
    if |payload| < 1 || |payload| < 1 + At(payload, 0) + 3 then None
    else
      var s := payload[1 + At(payload, 0)..];
      var total := 3 + Word16(s, 1) % 0x1000;
      if s[0] != tableId || At(s, 1) / 128 != 1 || total < 12 || total > |s| then None
      else if At(s, 5) % 2 != 1 || s[6] != 0 || s[7] != 0 then None
      else if CrcReference.Checksum(s[..total]) != CrcReference.Coefficients(32, false) then None
      else Some(s[..total])
  }

  /** A program's number and the PID of its PMT. */
  datatype Program = Program(number: int, pid: int)

  /** The first program of a PAT loop; number zero announces the network PID instead. */
  function FirstProgram(loop: seq<byte>): Option<Program>
    decreases |loop|
  {
    if |loop| < 4 then None
    else if Word16(loop, 0) != 0 then Some(Program(Word16(loop, 0), Word16(loop, 2) % 0x2000))
    else FirstProgram(loop[4..])
  }

  function ParsePat(payload: seq<byte>): Option<Program> {
    match Section(payload, 0x00)
    case None => None
    case Some(s) => FirstProgram(s[8..|s| - 4])
  }

  /** The PID of the first elementary stream of a given type in a PMT loop. */
  function FirstStream(loop: seq<byte>, streamType: byte): Option<int>
    decreases |loop|
  {
    if |loop| < 5 then None
    else if loop[0] == streamType then Some(Word16(loop, 1) % 0x2000)
    else
      var next := 5 + Word16(loop, 3) % 0x1000;
      if next > |loop| then None else FirstStream(loop[next..], streamType)
  }

  /** The PIDs that carry the clock reference, the H.264 (type 0x1B) and the AAC stream (type 0x0F). */
  datatype Streams = Streams(clock: int, video: int, audio: int)

  function ParsePmt(payload: seq<byte>, number: int): Option<Streams> {
    match Section(payload, 0x02)
    case None => None
    case Some(s) =>
      if |s| < 16 || Word16(s, 3) != number then None
      else
        var start := 12 + Word16(s, 10) % 0x1000;
        if start > |s| - 4 then None
        else
          var loop := s[start..|s| - 4];
          match (FirstStream(loop, 0x1B), FirstStream(loop, 0x0F))
          case (Some(v), Some(a)) => Some(Streams(Word16(s, 8) % 0x2000, v, a))
          case (_, _) => None
  }

  // ----- reassembly -----

  /** The bytes collected for one PES packet, and the PCR of its first packet. */
  datatype RawPes = RawPes(pcr: Option<int>, bytes: seq<byte>)

  datatype Receiver = Receiver(
    program: Option<Program>, streams: Option<Streams>, video: seq<RawPes>, audio: seq<RawPes>)

  const FRESH := Receiver(None, None, [], [])

  /** A packet that starts a unit opens a buffer; any other extends the open one, if there is one. */
  function Collect(units: seq<RawPes>, p: TsPacket): seq<RawPes> {
    if p.pusi then units + [RawPes(p.pcr, p.payload)]
    else if units == [] then []
    else
      var last := units[|units| - 1];
      units[..|units| - 1] + [last.(bytes := last.bytes + p.payload)]
  }

  function Receive(r: Receiver, p: TsPacket): Receiver {
    if p.pid == 0 then
      if p.pusi && ParsePat(p.payload).Some? then r.(program := ParsePat(p.payload)) else r
    else if r.program.Some? && p.pid == r.program.value.pid then
      var streams := ParsePmt(p.payload, r.program.value.number);
      if p.pusi && streams.Some? then r.(streams := streams) else r
    else if r.streams.None? then r
    else
      var known := r.streams.value;
      var q := if p.pid == known.clock then p else p.(pcr := None);
      if p.pid == known.video then r.(video := Collect(r.video, q))
      else if p.pid == known.audio then r.(audio := Collect(r.audio, q))
      else r
  }

  function Step(r: Receiver, pkt: packet): Receiver {
    match ParsePacket(pkt)
    case None => r
    case Some(p) => Receive(r, p)
  }

  function Feed(r: Receiver, pkts: seq<packet>): Receiver
    decreases |pkts|
  {
    if pkts == [] then r else Feed(Step(r, pkts[0]), pkts[1..])
  }

  // ----- PES packets -----

  datatype AccessUnit = AccessUnit(pts: int, pcr: Option<int>, data: seq<byte>)

  function DecodeTimestamp(b: seq<byte>): int
    requires |b| >= 5
  {
    (At(b, 0) / 2 % 8) * 0x4000_0000 + At(b, 1) * 0x40_0000 + (At(b, 2) / 2) * 0x8000 + At(b, 3) * 0x80 + At(b, 4) / 2
  }

  predicate TimestampMarked(b: seq<byte>, prefix: int)
    requires |b| >= 5
  {
    b[0] / 16 == prefix && b[0] % 2 == 1 && b[2] % 2 == 1 && b[4] % 2 == 1
  }

  /** Section 2.4.3.7: not scrambled, a presentation time and no other optional field. A length of zero
      leaves the packet open-ended, tolerated here for either stream; any other must be covered by what
      arrived. */
  function ParsePes(streamId: byte, raw: RawPes): Option<AccessUnit> {
    var b := raw.bytes;
    if |b| < 14 || b[0] != 0 || b[1] != 0 || b[2] != 1 || b[3] != streamId then None
    else if b[6] / 16 != 8 || b[7] != 0x80 || b[8] < 5 then None
    else
      var length := Word16(b, 4);
      var start := 9 + At(b, 8);
      var end := if length == 0 then |b| else 6 + length;
      if end > |b| || start > end || !TimestampMarked(b[9..], 2) then None
      else Some(AccessUnit(DecodeTimestamp(b[9..]), raw.pcr, b[start..end]))
  }

  function Units(streamId: byte, raws: seq<RawPes>): seq<AccessUnit> {
    if raws == [] then []
    else
      (match ParsePes(streamId, raws[0]) case None => [] case Some(u) => [u]) + Units(streamId, raws[1..])
  }

  // ----- a byte stream -----

  /** Whole packets of a byte stream that starts on a packet boundary. */
  function Packets(stream: seq<byte>): seq<packet> {
    if |stream| < 188 then [] else [stream[..188]] + Packets(stream[188..])
  }

  /** Video streams are numbered from 0xE0, audio streams from 0xC0 (table 2-22). */
  function VideoUnits(r: Receiver): seq<AccessUnit> {
    Units(0xE0, r.video)
  }

  function AudioUnits(r: Receiver): seq<AccessUnit> {
    Units(0xC0, r.audio)
  }

  lemma {:induction false} FeedConcat(r: Receiver, a: seq<packet>, b: seq<packet>)
    ensures Feed(r, a + b) == Feed(Feed(r, a), b)
    decreases |a|
  {
    if a == [] {
      assert a + b == b;
    } else {
      assert (a + b)[1..] == a[1..] + b;
      FeedConcat(Step(r, a[0]), a[1..], b);
    }
  }

  lemma {:induction false} UnitsConcat(streamId: byte, a: seq<RawPes>, b: seq<RawPes>)
    ensures Units(streamId, a + b) == Units(streamId, a) + Units(streamId, b)
  {
    hide ParsePes;
    if a == [] {
      assert a + b == b;
    } else {
      assert (a + b)[1..] == a[1..] + b;
      UnitsConcat(streamId, a[1..], b);
    }
  }

  lemma PacketsCons(pkt: packet, rest: seq<byte>)
    ensures Packets(pkt + rest) == [pkt] + Packets(rest)
  {
  }

  lemma {:induction false} PacketsOfConcat(pkts: seq<packet>, rest: seq<byte>)
    ensures Packets(Flatten(pkts) + rest) == pkts + Packets(rest)
    ensures |Flatten(pkts)| == 188 * |pkts|
  {
    hide Packets;
    if pkts == [] {
      assert [] + rest == rest;
    } else {
      PacketsOfConcat(pkts[1..], rest);
      PacketsCons(pkts[0], Flatten(pkts[1..]) + rest);
      assert Flatten(pkts) + rest == pkts[0] + (Flatten(pkts[1..]) + rest);
    }
  }
}
