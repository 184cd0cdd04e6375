/** The byte layouts of ISO/IEC 13818-1 that the muxer emits: packet headers, time stamps,
    PES packets, program tables and whole 188-byte packets. */
module TsFormat {
  import opened Bytes
  import Crc32

  const TS_PACKET_LEN := 188
  const SYNC_BYTE: byte := 0x47
  const PID_PAT: pid := 0x0000
  const PID_PMT: pid := 0x1000
  const PID_VIDEO: pid := 0x0100
  const PID_AUDIO: pid := 0x0101
  const STREAM_TYPE_H264: byte := 0x1B
  const STREAM_TYPE_AAC: byte := 0x0F
  const STREAM_ID_VIDEO: byte := 0xE0
  const STREAM_ID_AUDIO: byte := 0xC0
  const TWO33 := 0x2_0000_0000

  type pid = x: int | 0 <= x < 0x2000
  type nibble = x: int | 0 <= x < 16
  type packet = p: seq<byte> | |p| == 188 witness seq(188, _ => 0)

  /** Sync byte, PUSI and PID, adaptation field control and continuity counter. */
  function Header(p: pid, pusi: bool, afc: nat, cc: nibble): (r: seq<byte>)
    requires afc < 4
    ensures |r| == 4
  {
    [SYNC_BYTE, (if pusi then 0x40 else 0) + p / 256, p % 256, afc * 16 + cc]
  }

  /** Thirty-three bits in five bytes, three marker bits set. */
  function EncodeTimestamp(prefix: nibble, ts: u64): (r: seq<byte>)
    ensures |r| == 5
  {
    [prefix * 16 + (ts / 0x4000_0000 % 8) * 2 + 1,
     ts / 0x40_0000 % 256,
     (ts / 0x8000 % 128) * 2 + 1,
     ts / 0x80 % 256,
     (ts % 128) * 2 + 1]
  }

  /** A 33-bit base in six bytes: six reserved ones, extension zero. */
  function EncodePcr(base: u64): (r: seq<byte>)
    ensures |r| == 6
  {
    [base / 0x200_0000 % 256,
     base / 0x2_0000 % 256,
     base / 0x200 % 256,
     base / 2 % 256,
     (base % 2) * 128 + 0x7E,
     0]
  }

  /** The PES length field: what follows it when that fits sixteen bits, otherwise zero. */
  function PesLength(payload: nat): u16 {
    if 8 + payload < 0x1_0000 then 8 + payload else 0
  }

  function BuildPes(streamId: byte, pts: u64, payload: seq<byte>): (r: seq<byte>)
    ensures |r| == 14 + |payload|
  {
    var length := PesLength(|payload|);
    [0x00, 0x00, 0x01, streamId, length / 256, length % 256, 0x80, 0x80, 0x05]
    + EncodeTimestamp(2, pts) + payload
  }

  function WithCrc(body: seq<byte>): (r: seq<byte>)
    ensures |r| == |body| + 4
  {
    body + Crc32.BigEndian(Crc32.Crc(body))
  }

  /** A PAT body listing program 1 at `pmt`. */
  function PatBody(pmt: pid): (r: seq<byte>)
    ensures |r| == 12
  {
    [0x00, 0xB0, 0x0D, 0x00, 0x01, 0xC1, 0x00, 0x00,
     0x00, 0x01, 0xE0 + pmt / 256, pmt % 256]
  }

  /** A PMT body: the PCR rides the video PID, then the H.264 and the AAC stream. */
  function PmtBody(video: pid, audio: pid): (r: seq<byte>)
    ensures |r| == 22
  {
    [0x02, 0xB0, 0x17, 0x00, 0x01, 0xC1, 0x00, 0x00,
     0xE0 + video / 256, video % 256, 0xF0, 0x00,
     STREAM_TYPE_H264, 0xE0 + video / 256, video % 256, 0xF0, 0x00,
     STREAM_TYPE_AAC, 0xE0 + audio / 256, audio % 256, 0xF0, 0x00]
  }

  function PatSection(pmt: pid): (r: seq<byte>)
    ensures |r| == 16
  {
    WithCrc(PatBody(pmt))
  }

  function PmtSection(video: pid, audio: pid): (r: seq<byte>)
    ensures |r| == 26
  {
    WithCrc(PmtBody(video, audio))
  }

  function Stuffing(n: nat): (r: seq<byte>)
    ensures |r| == n
  {
    seq(n, _ => 0xFF)
  }

  /** One program-table packet: pointer field zero, the section, then filler. */
  function PsiPacket(p: pid, cc: nibble, section: seq<byte>): packet
    requires |section| <= 183
  {
    Header(p, true, 1, cc) + [0x00] + section + Stuffing(183 - |section|)
  }

  /** How many payload bytes the next packet of a unit carries. */
  function Take(remaining: nat, needPcr: bool): nat {
    if !needPcr && remaining >= 184 then 184
    else Min(remaining, if needPcr then 176 else 182)
  }

  /** Which payload sizes one packet can hold. */
  predicate Fits(size: nat, pcr: Option<u64>) {
    size <= (if pcr.Some? then 176 else 182) || (pcr.None? && size == 184)
  }

  /** One packet of a unit: payload only when it fills the packet, otherwise an adaptation field
      holding the PCR, if any, and stuffing. */
  function DataPacket(p: pid, pusi: bool, cc: nibble, pcr: Option<u64>, chunk: seq<byte>): packet
    requires Fits(|chunk|, pcr)
  {
    if |chunk| == 184 then
      Header(p, pusi, 1, cc) + chunk
    else
      Header(p, pusi, 3, cc) + [183 - |chunk|, if pcr.Some? then 0x10 else 0x00]
      + (if pcr.Some? then EncodePcr(pcr.value) else [])
      + Stuffing(182 - |chunk| - if pcr.Some? then 6 else 0)
      + chunk
  }

  function Next(cc: nibble): nibble {
    (cc + 1) % 16
  }

  /** A unit's packets, the first one marked and carrying the PCR. */
  function Packetize(p: pid, cc: nibble, payload: seq<byte>, first: bool, pcr: Option<u64>): seq<packet>
    decreases |payload|
  {
    if payload == [] then []
    else
      var n := Take(|payload|, first && pcr.Some?);
      [DataPacket(p, first, cc, if first then pcr else None, payload[..n])]
      + Packetize(p, Next(cc), payload[n..], false, pcr)
  }
}
