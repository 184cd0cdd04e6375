/** What the muxer sends is what the reference receiver recovers: for every run, whatever chunks
    are lost on the way, and whenever the receiver joins. */
module MuxDemux {
  import opened Bytes
  import opened TsFormat
  import opened Muxer
  import opened Demuxer
  import opened Arith
  import Crc32
  import CrcExact

  // ----- fields -----

  /** The digits `EncodeTimestamp` and `EncodePcr` cut a clock value into add up to its low 33 bits. */
  lemma {:induction false} TimestampDigits(ts: u64)
    ensures (ts / 0x4000_0000 % 8) * 0x4000_0000 + (ts / 0x40_0000 % 256) * 0x40_0000
            + (ts / 0x8000 % 128) * 0x8000 + (ts / 0x80 % 256) * 0x80 + ts % 128 == ts % TWO33
  {
    SplitMod(ts, 0x80, 0x100);
    SplitMod(ts, 0x8000, 0x80);
    SplitMod(ts, 0x40_0000, 0x100);
    SplitMod(ts, 0x4000_0000, 8);
  }

  lemma {:induction false} PcrDigits(base: u64)
    ensures (base / 0x200_0000 % 256) * 0x200_0000 + (base / 0x2_0000 % 256) * 0x2_0000
            + (base / 0x200 % 256) * 0x200 + (base / 2 % 256) * 2 + base % 2 == base % TWO33
  {
    SplitMod(base, 2, 0x100);
    SplitMod(base, 0x200, 0x100);
    SplitMod(base, 0x2_0000, 0x100);
    SplitMod(base, 0x200_0000, 0x100);
  }

  lemma FirstOctet(prefix: nibble, d: nat)
    requires d < 8
    ensures (prefix * 16 + d * 2 + 1) / 2 % 8 == d
  {
  }

  lemma {:induction false} TimestampRoundTrip(prefix: nibble, ts: u64)
    ensures DecodeTimestamp(EncodeTimestamp(prefix, ts)) == ts % TWO33
    ensures TimestampMarked(EncodeTimestamp(prefix, ts), prefix)
  {
    TimestampDigits(ts);
    FirstOctet(prefix, ts / 0x4000_0000 % 8);
  }

  lemma {:induction false} PcrRoundTrip(base: u64)
    ensures DecodePcr(EncodePcr(base)) == base % TWO33 && DecodePcrExtension(EncodePcr(base)) == 0
  {
    PcrDigits(base);
  }

  /** The presentation time a receiver sees. */
  function Clock33(pts: u64): int {
    pts % TWO33
  }

  function Pcr33(pcr: Option<u64>): Option<int> {
    match pcr case None => None case Some(base) => Some(Clock33(base))
  }

  /** No error, no priority, not scrambled, and every other field as given. */
  lemma HeaderFields(p: pid, pusi: bool, afc: nat, cc: nibble)
    requires afc < 4
    ensures var h := Header(p, pusi, afc, cc);
            h[0] == 0x47 && (h[1] / 64 % 2 == 1 <==> pusi) && Word16(h, 1) % 0x2000 == p
            && h[3] / 16 == afc && h[3] % 16 == cc && h[1] / 128 == 0 && h[1] / 32 % 2 == 0
  {
  }

  lemma ParseFullPacket(p: pid, pusi: bool, cc: nibble, chunk: seq<byte>)
    requires |chunk| == 184
    ensures ParsePacket(Header(p, pusi, 1, cc) + chunk) == Some(TsPacket(p, pusi, cc, None, chunk))
  {
    HeaderFields(p, pusi, 1, cc);
    var pkt: packet := Header(p, pusi, 1, cc) + chunk;
    assert pkt[..4] == Header(p, pusi, 1, cc);
    assert Word16(pkt, 1) == Word16(Header(p, pusi, 1, cc), 1);
    assert pkt[4..] == chunk;
  }

  /** Any packet whose adaptation field leaves room for exactly `chunk` is read back as such. */
  lemma ParseAdapted(pkt: packet, p: pid, pusi: bool, cc: nibble, flags: byte, chunk: seq<byte>)
    requires |chunk| <= 182
    requires flags % 16 == 0
    requires pkt[..6] == Header(p, pusi, 3, cc) + [183 - |chunk|, flags]
    requires pkt[188 - |chunk|..] == chunk
    ensures ParsePacket(pkt)
            == Some(TsPacket(p, pusi, cc,
                             if |chunk| <= 176 && flags / 16 % 2 == 1 then Some(DecodePcr(pkt[6..12])) else None,
                             chunk))
  {
    hide DecodePcr;
    var h := Header(p, pusi, 3, cc);
    HeaderFields(p, pusi, 3, cc);
    assert pkt[..6][..4] == h;
    assert pkt[..6][4] == 183 - |chunk| && pkt[..6][5] == flags;
    assert Word16(pkt, 1) == Word16(h, 1);
  }

  lemma ParseStuffedPacket(p: pid, pusi: bool, cc: nibble, chunk: seq<byte>)
    requires |chunk| <= 182
    ensures ParsePacket(DataPacket(p, pusi, cc, None, chunk)) == Some(TsPacket(p, pusi, cc, None, chunk))
  {
    hide ParsePacket, Header, Stuffing;
    var pkt := DataPacket(p, pusi, cc, None, chunk);
    assert pkt[..6] == Header(p, pusi, 3, cc) + [183 - |chunk|, 0x00];
    assert pkt[188 - |chunk|..] == chunk;
    ParseAdapted(pkt, p, pusi, cc, 0x00, chunk);
  }

  lemma {:induction false} ParsePcrPacket(p: pid, pusi: bool, cc: nibble, base: u64, chunk: seq<byte>)
    requires |chunk| <= 176
    ensures ParsePacket(DataPacket(p, pusi, cc, Some(base), chunk))
            == Some(TsPacket(p, pusi, cc, Some(Clock33(base)), chunk))
  {
    hide ParsePacket, Header, Stuffing, DecodePcr, EncodePcr;
    var pkt := DataPacket(p, pusi, cc, Some(base), chunk);
    assert pkt[..6] == Header(p, pusi, 3, cc) + [183 - |chunk|, 0x10];
    assert pkt[6..12] == EncodePcr(base);
    assert pkt[188 - |chunk|..] == chunk;
    ParseAdapted(pkt, p, pusi, cc, 0x10, chunk);
    PcrRoundTrip(base);
  }

  lemma {:induction false} ParseDataPacket(p: pid, pusi: bool, cc: nibble, pcr: Option<u64>, chunk: seq<byte>)
    requires Fits(|chunk|, pcr)
    ensures ParsePacket(DataPacket(p, pusi, cc, pcr, chunk)) == Some(TsPacket(p, pusi, cc, Pcr33(pcr), chunk))
  {
    hide ParsePacket;
    match pcr {
      case Some(base) => ParsePcrPacket(p, pusi, cc, base, chunk);
      case None =>
        if |chunk| == 184 {
          ParseFullPacket(p, pusi, cc, chunk);
        } else {
          ParseStuffedPacket(p, pusi, cc, chunk);
        }
    }
  }

  lemma ParsePsiPacket(p: pid, cc: nibble, section: seq<byte>)
    requires |section| <= 183
    ensures ParsePacket(PsiPacket(p, cc, section))
            == Some(TsPacket(p, true, cc, None, [0x00] + section + Stuffing(183 - |section|)))
  {
    assert PsiPacket(p, cc, section) == Header(p, true, 1, cc) + ([0x00] + section + Stuffing(183 - |section|));
    ParseFullPacket(p, true, cc, [0x00] + section + Stuffing(183 - |section|));
  }

  // ----- program tables -----

  /** A body whose length field counts itself and the checksum is accepted whole. */
  lemma SectionAccepted(body: seq<byte>, tableId: byte, filler: nat)
    requires |body| >= 8 && body[0] == tableId
    requires 3 + Word16(body, 1) % 0x1000 == |body| + 4
    requires At(body, 1) / 128 == 1 && At(body, 5) % 2 == 1 && body[6] == 0 && body[7] == 0
    ensures Section([0x00] + WithCrc(body) + Stuffing(filler), tableId) == Some(WithCrc(body))
  {
    hide Crc32.Crc;
    var section := WithCrc(body);
    var payload := [0x00] + section + Stuffing(filler);
    assert payload[1..] == section + Stuffing(filler);
    var s := payload[1..];
    assert s[..|section|] == section;
    assert s[..8] == body[..8];
    assert forall i :: 0 <= i < 8 ==> s[i] == s[..8][i] && body[i] == body[..8][i];
    assert Word16(s, 1) == Word16(body, 1);
    Crc32.ResidueIsZero(body);
    CrcExact.CrcIsChecksum(section);
  }

  lemma ProgramLoop(pmt: pid, loop: seq<byte>)
    requires loop == [0x00, 0x01, 0xE0 + pmt / 256, pmt % 256]
    ensures FirstProgram(loop) == Some(Program(1, pmt))
  {
  }

  lemma PatAccepted(pmt: pid, filler: nat)
    ensures ParsePat([0x00] + PatSection(pmt) + Stuffing(filler)) == Some(Program(1, pmt))
  {
    hide Crc32.Crc, Crc32.BigEndian, FirstProgram, Section;
    var body := PatBody(pmt);
    SectionAccepted(body, 0x00, filler);
    assert WithCrc(body)[8..12] == body[8..];
    ProgramLoop(pmt, body[8..]);
  }

  lemma StreamLoop(video: pid, audio: pid, loop: seq<byte>)
    requires loop == [STREAM_TYPE_H264, 0xE0 + video / 256, video % 256, 0xF0, 0x00,
                      STREAM_TYPE_AAC, 0xE0 + audio / 256, audio % 256, 0xF0, 0x00]
    ensures FirstStream(loop, STREAM_TYPE_H264) == Some(video)
    ensures FirstStream(loop, STREAM_TYPE_AAC) == Some(audio)
  {
    var rest := loop[5..];
    assert rest[0] == STREAM_TYPE_AAC;
    assert Word16(rest, 1) == Word16(loop, 6);
    assert FirstStream(rest, STREAM_TYPE_AAC) == Some(audio);
  }

  lemma PmtFields(video: pid, audio: pid, s: seq<byte>)
    requires |s| == 26 && s[..22] == PmtBody(video, audio)
    ensures Word16(s, 3) == 1 && Word16(s, 8) % 0x2000 == video && Word16(s, 10) % 0x1000 == 0
    ensures FirstStream(s[12..22], STREAM_TYPE_H264) == Some(video)
    ensures FirstStream(s[12..22], STREAM_TYPE_AAC) == Some(audio)
  {
    hide FirstStream;
    var body := PmtBody(video, audio);
    assert forall i :: 0 <= i < 12 ==> s[i] == s[..22][i];
    assert s[12..22] == body[12..];
    StreamLoop(video, audio, s[12..22]);
  }

  lemma {:induction false} PmtAccepted(video: pid, audio: pid, filler: nat)
    ensures ParsePmt([0x00] + PmtSection(video, audio) + Stuffing(filler), 1) == Some(Streams(video, video, audio))
  {
    PmtBodyFields(video, audio);
    hide Crc32.Crc, Crc32.BigEndian, FirstStream, Section, PmtBody;
    SectionAccepted(PmtBody(video, audio), 0x02, filler);
    PmtFields(video, audio, PmtSection(video, audio));
  }

  lemma PmtBodyFields(video: pid, audio: pid)
    ensures var b := PmtBody(video, audio);
            b[0] == 0x02 && 3 + Word16(b, 1) % 0x1000 == |b| + 4
            && At(b, 1) / 128 == 1 && At(b, 5) % 2 == 1 && b[6] == 0 && b[7] == 0
  {
  }

  // ----- one unit -----

  predicate MediaPid(p: pid) {
    p == PID_VIDEO || p == PID_AUDIO
  }

  const PROGRAM := Program(1, 0x1000)
  const STREAMS := Streams(0x0100, 0x0100, 0x0101)

  /** What a receiver of this muxer's streams can have learnt. */
  predicate Plausible(r: Receiver) {
    (r.program == None || r.program == Some(PROGRAM)) && (r.streams == None || r.streams == Some(STREAMS))
  }

  /** A clock reference belongs on the video PID. */
  predicate ClockPid(p: pid, pcr: Option<u64>) {
    p == PID_VIDEO || (p == PID_AUDIO && pcr.None?)
  }

  function Buffers(r: Receiver, p: pid): seq<RawPes> {
    if p == PID_VIDEO then r.video else r.audio
  }

  function WithBuffers(r: Receiver, p: pid, units: seq<RawPes>): Receiver {
    if p == PID_VIDEO then r.(video := units) else r.(audio := units)
  }

  function Extend(units: seq<RawPes>, bytes: seq<byte>): seq<RawPes>
    requires units != []
  {
    var last := units[|units| - 1];
    units[..|units| - 1] + [last.(bytes := last.bytes + bytes)]
  }

  lemma {:induction false} StepMedia(r: Receiver, p: pid, pusi: bool, cc: nibble, pcr: Option<u64>, chunk: seq<byte>)
    requires Plausible(r) && ClockPid(p, pcr)
    requires Fits(|chunk|, pcr)
    ensures Step(r, DataPacket(p, pusi, cc, pcr, chunk))
            == if r.streams.None? then r
               else WithBuffers(r, p, Collect(Buffers(r, p), TsPacket(p, pusi, cc, Pcr33(pcr), chunk)))
  {
    hide ParsePacket, DataPacket, Collect;
    ParseDataPacket(p, pusi, cc, pcr, chunk);
  }

  lemma ExtendNothing(units: seq<RawPes>)
    requires units != []
    ensures Extend(units, []) == units
  {
    var last := units[|units| - 1];
    assert last.bytes + [] == last.bytes;
    assert units[..|units| - 1] + [last] == units;
  }

  lemma ExtendTwice(units: seq<RawPes>, a: seq<byte>, b: seq<byte>)
    requires units != []
    ensures Extend(units, a) != []
    ensures Extend(Extend(units, a), b) == Extend(units, a + b)
  {
    var last := units[|units| - 1];
    assert last.bytes + a + b == last.bytes + (a + b);
  }

  /** The packets after the first extend the open unit by exactly the bytes they carry. */
  lemma {:induction false} FeedContinuation(r: Receiver, p: pid, cc: nibble, payload: seq<byte>, pcr: Option<u64>)
    requires Plausible(r) && MediaPid(p)
    requires r.streams.Some? ==> Buffers(r, p) != []
    ensures Feed(r, Packetize(p, cc, payload, false, pcr))
            == if r.streams.None? then r else WithBuffers(r, p, Extend(Buffers(r, p), payload))
    decreases |payload|
  {
    hide DataPacket, Step, Packetize, Feed, Extend;
    if payload == [] {
      FeedNothing(r, p, cc, pcr);
      if r.streams.Some? {
        ExtendNothing(Buffers(r, p));
      }
    } else {
      var n := Take(|payload|, false);
      var pkt := DataPacket(p, false, cc, None, payload[..n]);
      PacketizeUnfold(p, cc, payload, false, pcr);
      StepMedia(r, p, false, cc, None, payload[..n]);
      if r.streams.Some? {
        CollectExtends(Buffers(r, p), TsPacket(p, false, cc, None, payload[..n]));
        ExtendTwice(Buffers(r, p), payload[..n], payload[n..]);
        assert payload[..n] + payload[n..] == payload;
      }
      FeedContinuation(Step(r, pkt), p, Next(cc), payload[n..], pcr);
      FeedCons(r, pkt, Packetize(p, Next(cc), payload[n..], false, pcr));
    }
  }

  lemma FeedNothing(r: Receiver, p: pid, cc: nibble, pcr: Option<u64>)
    ensures Feed(r, Packetize(p, cc, [], false, pcr)) == r
  {
  }

  lemma PacketizeUnfold(p: pid, cc: nibble, payload: seq<byte>, first: bool, pcr: Option<u64>)
    requires payload != []
    ensures var n := Take(|payload|, first && pcr.Some?);
            0 < n <= |payload| && Fits(n, if first then pcr else None)
            && Packetize(p, cc, payload, first, pcr)
               == [DataPacket(p, first, cc, if first then pcr else None, payload[..n])]
                  + Packetize(p, Next(cc), payload[n..], false, pcr)
  {
  }

  lemma FeedCons(r: Receiver, pkt: packet, rest: seq<packet>)
    ensures Feed(r, [pkt] + rest) == Feed(Step(r, pkt), rest)
  {
  }

  lemma CollectExtends(units: seq<RawPes>, p: TsPacket)
    requires units != [] && !p.pusi
    ensures Collect(units, p) == Extend(units, p.payload) != []
  {
  }

  /** The packets of one unit add one buffer holding its PES packet and its PCR. */
  lemma {:induction false} FeedUnit(r: Receiver, p: pid, cc: nibble, payload: seq<byte>, pcr: Option<u64>)
    requires Plausible(r) && ClockPid(p, pcr) && payload != []
    ensures Feed(r, Packetize(p, cc, payload, true, pcr))
            == if r.streams.None? then r
               else WithBuffers(r, p, Buffers(r, p) + [RawPes(Pcr33(pcr), payload)])
  {
    hide DataPacket, Step, Packetize, Feed;
    var n := Take(|payload|, pcr.Some?);
    var pkt := DataPacket(p, true, cc, pcr, payload[..n]);
    PacketizeUnfold(p, cc, payload, true, pcr);
    StepMedia(r, p, true, cc, pcr, payload[..n]);
    FeedContinuation(Step(r, pkt), p, Next(cc), payload[n..], pcr);
    FeedCons(r, pkt, Packetize(p, Next(cc), payload[n..], false, pcr));
    assert payload[..n] + payload[n..] == payload;
  }

  lemma PesRoundTrip(streamId: byte, pts: u64, data: seq<byte>, pcr: Option<int>)
    ensures ParsePes(streamId, RawPes(pcr, BuildPes(streamId, pts, data)))
            == Some(AccessUnit(Clock33(pts), pcr, data))
  {
    hide DecodeTimestamp, TimestampMarked, EncodeTimestamp;
    var pes := BuildPes(streamId, pts, data);
    TimestampRoundTrip(2, pts);
    var tail := pes[9..];
    assert tail[..5] == EncodeTimestamp(2, pts);
    TimestampPrefix(tail);
    assert pes[14..] == data;
    assert Word16(pes, 4) == PesLength(|data|);
    assert At(pes, 8) == 5;
    assert pes[14..|pes|] == data;
    assert TimestampMarked(pes[9..], 2);
    assert DecodeTimestamp(pes[9..]) == Clock33(pts);
  }

  lemma TimestampPrefix(b: seq<byte>)
    requires |b| >= 5
    ensures DecodeTimestamp(b) == DecodeTimestamp(b[..5])
    ensures TimestampMarked(b, 2) == TimestampMarked(b[..5], 2)
  {
  }

  // ----- one push -----

  /** The tables tell any receiver where the two streams are. */
  lemma {:induction false} FeedTables(r: Receiver, c: Counters)
    requires Plausible(r)
    ensures Feed(r, TablePackets(c))
            == r.(program := Some(PROGRAM), streams := Some(STREAMS))
  {
    hide ParsePacket, PsiPacket, PatSection, PmtSection, ParsePat, ParsePmt;
    var pat := PsiPacket(PID_PAT, c.pat, PatSection(PID_PMT));
    var pmt := PsiPacket(PID_PMT, c.pmt, PmtSection(PID_VIDEO, PID_AUDIO));
    ParsePsiPacket(PID_PAT, c.pat, PatSection(PID_PMT));
    PatAccepted(PID_PMT, 183 - |PatSection(PID_PMT)|);
    ParsePsiPacket(PID_PMT, c.pmt, PmtSection(PID_VIDEO, PID_AUDIO));
    PmtAccepted(PID_VIDEO, PID_AUDIO, 183 - |PmtSection(PID_VIDEO, PID_AUDIO)|);
    var r1 := Step(r, pat);
    assert r1 == r.(program := Some(PROGRAM));
    assert [pat, pmt][1..] == [pmt];
    assert Feed(Step(r1, pmt), [pmt][1..]) == Step(r1, pmt);
  }

  /** What one push means to a receiver: tables with a keyframe, one more unit once it knows them. */
  function Understand(r: Receiver, push: Push): Receiver {
    match push
    case PushVideo(annexb, pts, keyframe) =>
      var r1 := if keyframe then r.(program := Some(PROGRAM), streams := Some(STREAMS)) else r;
      if r1.streams.None? then r1
      else r1.(video := r1.video + [RawPes(Some(Clock33(pts)), BuildPes(STREAM_ID_VIDEO, pts, annexb))])
    case PushAudio(adts, pts) =>
      if r.streams.None? then r
      else r.(audio := r.audio + [RawPes(None, BuildPes(STREAM_ID_AUDIO, pts, adts))])
  }

  lemma FeedPush(r: Receiver, c: Counters, push: Push)
    requires Plausible(r)
    ensures Feed(r, PushPackets(c, push)) == Understand(r, push)
    ensures Plausible(Understand(r, push))
  {
    hide Packetize, TablePackets;
    match push {
      case PushVideo(annexb, pts, keyframe) =>
        var pes := BuildPes(STREAM_ID_VIDEO, pts, annexb);
        var tables := if keyframe then TablePackets(c) else [];
        FeedConcat(r, tables, VideoPackets(c.video, annexb, pts));
        if keyframe {
          FeedTables(r, c);
        }
        FeedUnit(Feed(r, tables), PID_VIDEO, c.video, pes, Some(pts));
      case PushAudio(adts, pts) =>
        FeedUnit(r, PID_AUDIO, c.audio, BuildPes(STREAM_ID_AUDIO, pts, adts), None);
    }
  }
}
