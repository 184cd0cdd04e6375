/** The MPEG-TS muxer: per-PID continuity counters, and one run of whole packets per pushed unit. */
module Muxer {
  import opened Bytes
  import opened TsFormat

  datatype Which = Video | Audio | Pat | Pmt

  /** The four continuity counters, and a unit given to the muxer. */
  datatype Counters = Counters(video: nibble, audio: nibble, pat: nibble, pmt: nibble)
  datatype Push = PushVideo(annexb: seq<byte>, pts: u64, keyframe: bool) | PushAudio(adts: seq<byte>, pts: u64)

  const ZERO := Counters(0, 0, 0, 0)

  function Advance(cc: nibble, packets: nat): nibble {
    (cc + packets) % 16
  }

  function Slot(c: Counters, which: Which): nibble {
    match which
    case Video => c.video
    case Audio => c.audio
    case Pat => c.pat
    case Pmt => c.pmt
  }

  /** The counters after `packets` more packets on one PID. */
  function Moved(c: Counters, which: Which, packets: nat): Counters {
    match which
    case Video => c.(video := Advance(c.video, packets))
    case Audio => c.(audio := Advance(c.audio, packets))
    case Pat => c.(pat := Advance(c.pat, packets))
    case Pmt => c.(pmt := Advance(c.pmt, packets))
  }

  lemma StuffingNone()
    ensures Stuffing(0) == []
  {
  }

  lemma StuffingMore(n: nat)
    ensures Stuffing(n + 1) == Stuffing(n) + [0xFF]
  {
  }

  lemma MovedNone(c: Counters, which: Which)
    ensures Moved(c, which, 0) == c && Advance(Slot(c, which), 0) == Slot(c, which)
  {
  }

  lemma AdvanceNext(cc: nibble, packets: nat)
    ensures Next(Advance(cc, packets)) == Advance(Advance(cc, packets), 1) == Advance(cc, packets + 1)
  {
  }

  lemma MovedNext(c: Counters, which: Which, packets: nat)
    ensures Slot(Moved(c, which, packets), which) == Advance(Slot(c, which), packets)
    ensures Next(Advance(Slot(c, which), packets)) == Advance(Slot(c, which), packets + 1)
    ensures Moved(Moved(c, which, packets), which, 1) == Moved(c, which, packets + 1)
  {
    hide Advance, Next;
    AdvanceNext(Slot(c, which), packets);
  }

  function VideoPackets(cc: nibble, annexb: seq<byte>, pts: u64): seq<packet> {
    Packetize(PID_VIDEO, cc, BuildPes(STREAM_ID_VIDEO, pts, annexb), true, Some(pts))
  }

  function AudioPackets(cc: nibble, adts: seq<byte>, pts: u64): seq<packet> {
    Packetize(PID_AUDIO, cc, BuildPes(STREAM_ID_AUDIO, pts, adts), true, None)
  }

  function TablePackets(c: Counters): seq<packet> {
    [PsiPacket(PID_PAT, c.pat, PatSection(PID_PMT)),
     PsiPacket(PID_PMT, c.pmt, PmtSection(PID_VIDEO, PID_AUDIO))]
  }

  /** The packets of one push. */
  function PushPackets(c: Counters, push: Push): seq<packet> {
    match push
    case PushVideo(annexb, pts, keyframe) =>
      (if keyframe then TablePackets(c) else []) + VideoPackets(c.video, annexb, pts)
    case PushAudio(adts, pts) => AudioPackets(c.audio, adts, pts)
  }

  /** The counters after one push: each advanced by the packets sent on its PID. */
  function After(c: Counters, push: Push): Counters {
    match push
    case PushVideo(annexb, pts, keyframe) =>
      var d := if keyframe then Moved(Moved(c, Pat, 1), Pmt, 1) else c;
      Moved(d, Video, |VideoPackets(c.video, annexb, pts)|)
    case PushAudio(adts, pts) => Moved(c, Audio, |AudioPackets(c.audio, adts, pts)|)
  }

  lemma PacketizeEnd(p: pid, cc: nibble, payload: seq<byte>, first: bool, pcr: Option<u64>)
    ensures Packetize(p, cc, payload[|payload|..], first, pcr) == []
  {
  }

  lemma PacketizeStep(p: pid, cc: nibble, payload: seq<byte>, offset: nat, take: nat, first: bool,
                      pcr: Option<u64>, pkt: packet)
    requires offset < |payload|
    requires take == Take(|payload| - offset, first && pcr.Some?)
    requires pkt == DataPacket(p, first, cc, if first then pcr else None, payload[offset..offset + take])
    ensures Packetize(p, cc, payload[offset..], first, pcr)
            == [pkt] + Packetize(p, Next(cc), payload[offset + take..], false, pcr)
    ensures 0 < take <= |payload| - offset
  {
    var rest := payload[offset..];
    assert rest[..take] == payload[offset..offset + take];
    assert rest[take..] == payload[offset + take..];
  }

  class MpegTsMuxer {
    var videoCc: nibble
    var audioCc: nibble
    var patCc: nibble
    var pmtCc: nibble

    function State(): Counters
      reads this
    {
      Counters(videoCc, audioCc, patCc, pmtCc)
    }

    constructor ()
      ensures State() == Counters(0, 0, 0, 0)
    {
      videoCc, audioCc, patCc, pmtCc := 0, 0, 0, 0;
    }

    method TakeCc(which: Which) returns (cc: nibble)
      modifies this
      ensures cc == Slot(old(State()), which)
      ensures State() == Moved(old(State()), which, 1)
    {
      match which {
        case Video => cc := videoCc; videoCc := Next(cc);
        case Audio => cc := audioCc; audioCc := Next(cc);
        case Pat => cc := patCc; patCc := Next(cc);
        case Pmt => cc := pmtCc; pmtCc := Next(cc);
      }
    }

    method WritePsi(p: pid, section: seq<byte>, which: Which) returns (pkt: packet)
      requires |section| <= 183
      modifies this
      ensures pkt == PsiPacket(p, Slot(old(State()), which), section)
      ensures State() == Moved(old(State()), which, 1)
    {
      var cc := TakeCc(which);
      var buffer := new byte[188](_ => 0xFF);
      var header := Header(p, true, 1, cc);
      forall i | 0 <= i < 4 {
        buffer[i] := header[i];
      }
      buffer[4] := 0x00;
      forall i | 0 <= i < |section| {
        buffer[5 + i] := section[i];
      }
      pkt := buffer[..];
      assert pkt == PsiPacket(p, cc, section);
    }

    /** The packet that carries `payload` from `offset` on, and how much of it fits. */
    static method NextPacket(p: pid, first: bool, cc: nibble, pcr: Option<u64>, payload: seq<byte>, offset: nat)
        returns (pkt: packet, take: nat)
      requires offset < |payload|
      ensures take == Take(|payload| - offset, first && pcr.Some?)
      ensures pkt == DataPacket(p, first, cc, if first then pcr else None, payload[offset..offset + take])
    {
      hide TsFormat.Header, TsFormat.EncodePcr, TsFormat.Stuffing;
      var remaining := |payload| - offset;
      var needPcr := first && pcr.Some?;
      if !needPcr && remaining >= 184 {
        take := 184;
        pkt := Header(p, first, 1, cc) + payload[offset..offset + 184];
      } else {
        var maxPayload := TS_PACKET_LEN - 4 - 1 - 1 - if needPcr then 6 else 0;
        take := Min(remaining, maxPayload);
        var buffer := Header(p, first, 3, cc) + [183 - take, if needPcr then 0x10 else 0x00];
        if needPcr {
          buffer := buffer + EncodePcr(pcr.value);
        }
        ghost var fixed := buffer;
        StuffingNone();
        while |buffer| < TS_PACKET_LEN - take
          invariant |fixed| <= |buffer| <= TS_PACKET_LEN - take
          invariant buffer == fixed + Stuffing(|buffer| - |fixed|)
        {
          StuffingMore(|buffer| - |fixed|);
          buffer := buffer + [0xFF];
        }
        pkt := buffer + payload[offset..offset + take];
      }
    }

    /** Splits `payload` over packets on `p`, taking one counter value for each. */
    method WritePayload(p: pid, kind: Which, payload: seq<byte>, pcr: Option<u64>) returns (out: seq<byte>)
      modifies this
      ensures var packets := Packetize(p, Slot(old(State()), kind), payload, true, pcr);
              out == Flatten(packets) && State() == Moved(old(State()), kind, |packets|)
    {
      hide TsFormat.DataPacket, TsFormat.Take, TsFormat.Packetize, Moved, Slot, Advance;
      out := [];
      var offset := 0;
      var first := true;
      ghost var was := State();
      ghost var start := Slot(was, kind);
      ghost var whole := Packetize(p, start, payload, true, pcr);
      ghost var sent: seq<packet> := [];
      ghost var todo := whole;
      assert payload[0..] == payload;
      MovedNone(was, kind);
      while offset < |payload|
        invariant offset <= |payload|
        invariant out == Flatten(sent)
        invariant todo == Packetize(p, Advance(start, |sent|), payload[offset..], first, pcr)
        invariant sent + todo == whole
        invariant State() == Moved(was, kind, |sent|)
      {
        MovedNext(was, kind, |sent|);
        var cc := TakeCc(kind);
        var pkt, take := NextPacket(p, first, cc, pcr, payload, offset);
        PacketizeStep(p, cc, payload, offset, take, first, pcr, pkt);
        FlattenSnoc(sent, pkt);
        assert sent + todo == (sent + [pkt]) + todo[1..];
        out := out + pkt;
        sent := sent + [pkt];
        todo := todo[1..];
        offset := offset + take;
        first := false;
      }
      PacketizeEnd(p, Advance(start, |sent|), payload, first, pcr);
      assert sent == whole;
    }

    /** Muxes one video unit, the program tables first when it is a keyframe. */
    method PushAccessUnit(annexb: seq<byte>, pts: u64, keyframe: bool) returns (out: seq<byte>)
      modifies this
      ensures out == Flatten(PushPackets(old(State()), PushVideo(annexb, pts, keyframe)))
      ensures State() == After(old(State()), PushVideo(annexb, pts, keyframe))
    {
      hide TsFormat.WithCrc;
      ghost var c := State();
      out := [];
      ghost var tables: seq<packet> := [];
      if keyframe {
        var pat: seq<byte> := WritePsi(PID_PAT, PatSection(PID_PMT), Pat);
        var pmt: seq<byte> := WritePsi(PID_PMT, PmtSection(PID_VIDEO, PID_AUDIO), Pmt);
        out := pat + pmt;
        tables := [pat, pmt];
        FlattenPair(pat, pmt);
        assert tables == TablePackets(c);
      }
      var pes := BuildPes(STREAM_ID_VIDEO, pts, annexb);
      var data := WritePayload(PID_VIDEO, Video, pes, Some(pts));
      FlattenConcat(tables, VideoPackets(c.video, annexb, pts));
      out := out + data;
    }

    /** Muxes one audio unit. */
    method PushAudioAccessUnit(adts: seq<byte>, pts: u64) returns (out: seq<byte>)
      modifies this
      ensures out == Flatten(PushPackets(old(State()), PushAudio(adts, pts)))
      ensures State() == After(old(State()), PushAudio(adts, pts))
    {
      var pes := BuildPes(STREAM_ID_AUDIO, pts, adts);
      out := WritePayload(PID_AUDIO, Audio, pes, None);
    }
  }
}
