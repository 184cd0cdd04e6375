/** What single packets carry: continuity counters over whole runs, unit starts, adaptation fields
    and packet counts. */
module MuxPackets {
  import opened Bytes
  import opened TsFormat
  import opened Muxer
  import opened Demuxer
  import opened MuxDemux
  import opened MuxRuns

  // ----- continuity counters -----

  function PidOf(which: Which): pid {
    match which
    case Video => PID_VIDEO
    case Audio => PID_AUDIO
    case Pat => PID_PAT
    case Pmt => PID_PMT
  }

  /** The continuity counters of the packets on one PID, in order. */
  function CcOn(p: pid, pkts: seq<packet>): seq<int> {
    if pkts == [] then []
    else
      (match ParsePacket(pkts[0])
       case None => []
       case Some(t) => if t.pid == p then [t.cc] else [])
      + CcOn(p, pkts[1..])
  }

  /** Counters that go up by one from packet to packet, modulo 16. */
  predicate CountsFrom(start: nibble, ccs: seq<int>) {
    forall k :: 0 <= k < |ccs| ==> ccs[k] == Advance(start, k)
  }

  lemma {:induction false} CcOnConcat(p: pid, a: seq<packet>, b: seq<packet>)
    ensures CcOn(p, a + b) == CcOn(p, a) + CcOn(p, b)
  {
    if a == [] {
      assert a + b == b;
    } else {
      assert (a + b)[1..] == a[1..] + b;
      CcOnConcat(p, a[1..], b);
    }
  }

  lemma CcOnCons(p: pid, pkt: packet, rest: seq<packet>, t: TsPacket)
    requires ParsePacket(pkt) == Some(t)
    ensures CcOn(p, [pkt] + rest) == (if t.pid == p then [t.cc] else []) + CcOn(p, rest)
  {
  }

  lemma AdvanceAdd(cc: nibble, m: nat, n: nat)
    ensures Advance(Advance(cc, m), n) == Advance(cc, m + n)
  {
  }

  lemma CountsJoin(start: nibble, a: seq<int>, b: seq<int>)
    requires CountsFrom(start, a) && CountsFrom(Advance(start, |a|), b)
    ensures CountsFrom(start, a + b)
    ensures Advance(Advance(start, |a|), |b|) == Advance(start, |a + b|)
  {
    hide Advance;
    forall k | 0 <= k < |a + b| ensures (a + b)[k] == Advance(start, k) {
      if k >= |a| {
        assert (a + b)[k] == b[k - |a|];
        AdvanceAdd(start, |a|, k - |a|);
      }
    }
    AdvanceAdd(start, |a|, |b|);
  }

  lemma {:induction false} CcOfPayload(q: pid, p: pid, cc: nibble, payload: seq<byte>, first: bool, pcr: Option<u64>)
    ensures var pkts := Packetize(p, cc, payload, first, pcr);
            var ccs := CcOn(q, pkts);
            CountsFrom(cc, ccs) && |ccs| == if p == q then |pkts| else 0
    decreases |payload|
  {
    hide ParsePacket, DataPacket, Take, Packetize, CcOn, CountsFrom;
    if payload == [] {
      PacketizeNone(p, cc, first, pcr);
      CcOnNothing(q);
      CountsNothing(cc);
    } else {
      PacketizeUnfold(p, cc, payload, first, pcr);
      var n := Take(|payload|, first && pcr.Some?);
      var chunkPcr := if first then pcr else None;
      ParseDataPacket(p, first, cc, chunkPcr, payload[..n]);
      var rest := Packetize(p, Next(cc), payload[n..], false, pcr);
      CcOnCons(q, DataPacket(p, first, cc, chunkPcr, payload[..n]), rest,
               TsPacket(p, first, cc, Pcr33(chunkPcr), payload[..n]));
      CcOfPayload(q, p, Next(cc), payload[n..], false, pcr);
      if p == q {
        CountsCons(cc, CcOn(q, rest));
      } else {
        CountsNothing(cc);
      }
    }
  }

  lemma CountsNothing(cc: nibble)
    ensures CountsFrom(cc, [])
  {
  }

  lemma CountsCons(cc: nibble, rest: seq<int>)
    requires CountsFrom(Next(cc), rest)
    ensures CountsFrom(cc, [cc] + rest)
  {
    CountsJoin(cc, [cc], rest);
  }

  lemma {:induction false} CcOfTables(q: pid, c: Counters)
    ensures CcOn(q, TablePackets(c)) == if q == PID_PAT then [c.pat] else if q == PID_PMT then [c.pmt] else []
  {
    hide ParsePacket, PsiPacket, PatSection, PmtSection, CcOn;
    var pat := PsiPacket(PID_PAT, c.pat, PatSection(PID_PMT));
    var pmt := PsiPacket(PID_PMT, c.pmt, PmtSection(PID_VIDEO, PID_AUDIO));
    ParsePsiPacket(PID_PAT, c.pat, PatSection(PID_PMT));
    ParsePsiPacket(PID_PMT, c.pmt, PmtSection(PID_VIDEO, PID_AUDIO));
    assert TablePackets(c) == [pat] + ([pmt] + []);
    CcOnCons(q, pat, [pmt] + [], TsPacket(PID_PAT, true, c.pat, None,
             [0x00] + PatSection(PID_PMT) + Stuffing(183 - |PatSection(PID_PMT)|)));
    CcOnCons(q, pmt, [], TsPacket(PID_PMT, true, c.pmt, None,
             [0x00] + PmtSection(PID_VIDEO, PID_AUDIO) + Stuffing(183 - |PmtSection(PID_VIDEO, PID_AUDIO)|)));
    CcOnNothing(q);
  }

  lemma CcOnNothing(q: pid)
    ensures CcOn(q, []) == []
  {
  }

  lemma CountsOne(cc: nibble)
    ensures CountsFrom(cc, [cc])
  {
  }

  lemma {:induction false} CcOfVideo(which: Which, c: Counters, annexb: seq<byte>, pts: u64, keyframe: bool)
    ensures var push := PushVideo(annexb, pts, keyframe);
            var ccs := CcOn(PidOf(which), PushPackets(c, push));
            CountsFrom(Slot(c, which), ccs) && Slot(After(c, push), which) == Advance(Slot(c, which), |ccs|)
  {
    hide CcOn, Packetize, TablePackets, BuildPes, CountsFrom;
    var q := PidOf(which);
    var tables := if keyframe then TablePackets(c) else [];
    CcOnConcat(q, tables, VideoPackets(c.video, annexb, pts));
    CcOnNothing(q);
    CcOfTables(q, c);
    CcOfPayload(q, PID_VIDEO, c.video, BuildPes(STREAM_ID_VIDEO, pts, annexb), true, Some(pts));
    var ccs := CcOn(q, VideoPackets(c.video, annexb, pts));
    var first := CcOn(q, tables);
    assert first + [] == first && [] + ccs == ccs;
    CountsNothing(Slot(c, which));
    CountsOne(Slot(c, which));
  }

  lemma {:induction false} CcOfAudio(which: Which, c: Counters, adts: seq<byte>, pts: u64)
    ensures var push := PushAudio(adts, pts);
            var ccs := CcOn(PidOf(which), PushPackets(c, push));
            CountsFrom(Slot(c, which), ccs) && Slot(After(c, push), which) == Advance(Slot(c, which), |ccs|)
  {
    hide CcOn, Packetize, BuildPes, CountsFrom;
    CcOfPayload(PidOf(which), PID_AUDIO, c.audio, BuildPes(STREAM_ID_AUDIO, pts, adts), true, None);
    if !which.Audio? {
      CountsNothing(Slot(c, which));
    }
  }

  lemma {:induction false} CcOfPush(which: Which, c: Counters, push: Push)
    ensures var ccs := CcOn(PidOf(which), PushPackets(c, push));
            CountsFrom(Slot(c, which), ccs) && Slot(After(c, push), which) == Advance(Slot(c, which), |ccs|)
  {
    hide CcOn, PushPackets, After, CountsFrom, Advance;
    match push {
      case PushVideo(annexb, pts, keyframe) => CcOfVideo(which, c, annexb, pts, keyframe);
      case PushAudio(adts, pts) => CcOfAudio(which, c, adts, pts);
    }
  }

  /** Over any run the k-th packet on each of the four PIDs carries the PID's first counter plus k,
      modulo 16, whatever happens on the other three; a fresh muxer starts at zero. */
  lemma {:induction false} ContinuityCounters(which: Which, c: Counters, pushes: seq<Push>)
    ensures CountsFrom(Slot(c, which), CcOn(PidOf(which), Packets(Flatten(Chunks(c, pushes)))))
    decreases |pushes|
  {
    if pushes == [] {
      CcOnNothing(PidOf(which));
    } else {
      hide CcOn, PushPackets, After, Packets, CountsFrom;
      var pkts, next := PushPackets(c, pushes[0]), After(c, pushes[0]);
      var rest := Flatten(Chunks(next, pushes[1..]));
      PacketsOfConcat(pkts, rest);
      CcOnConcat(PidOf(which), pkts, Packets(rest));
      CcOfPush(which, c, pushes[0]);
      ContinuityCounters(which, next, pushes[1..]);
      CountsJoin(Slot(c, which), CcOn(PidOf(which), pkts), CcOn(PidOf(which), Packets(rest)));
    }
  }

  // ----- the packets of one unit -----

  /** How many packets `n` bytes without a PCR take: a tail of 183 bytes is cut in two. */
  function PlainPackets(n: nat): nat {
    n / 184 + if n % 184 == 0 then 0 else if n % 184 == 183 then 2 else 1
  }

  lemma {:induction false} PlainPacketCount(p: pid, cc: nibble, payload: seq<byte>, first: bool, pcr: Option<u64>)
    requires !first || pcr.None?
    ensures |Packetize(p, cc, payload, first, pcr)| == PlainPackets(|payload|)
    decreases |payload|
  {
    if payload == [] {
    } else {
      hide DataPacket, Packetize;
      PacketizeUnfold(p, cc, payload, first, pcr);
      var n := Take(|payload|, first && pcr.Some?);
      PlainPacketCount(p, Next(cc), payload[n..], false, pcr);
    }
  }

  /** The exact number of packets of a unit: one carrying the PCR and up to 176 bytes, the rest plain. */
  lemma PacketCount(p: pid, cc: nibble, payload: seq<byte>, pcr: Option<u64>)
    requires payload != []
    ensures |Packetize(p, cc, payload, true, pcr)|
            == match pcr
               case None => PlainPackets(|payload|)
               case Some(_) => 1 + PlainPackets(|payload| - Min(|payload|, 176))
  {
    if pcr.None? {
      PlainPacketCount(p, cc, payload, true, pcr);
    } else {
      hide DataPacket, Packetize;
      PacketizeUnfold(p, cc, payload, true, pcr);
      var n := Take(|payload|, true);
      PlainPacketCount(p, Next(cc), payload[n..], false, pcr);
    }
  }

  /** An adaptation field is never empty, leaves room for payload, flags the clock reference and nothing
      else, and is filled up with ones (section 2.4.3.5). */
  predicate WellSized(pkt: packet, hasPcr: bool) {
    pkt[3] / 32 % 2 == 1 ==>
      && 1 <= pkt[4] <= 182 && (hasPcr ==> 7 <= pkt[4])
      && pkt[5] == (if hasPcr then 0x10 else 0x00)
      && forall i :: (if hasPcr then 12 else 6) <= i < 5 + At(pkt, 4) ==> pkt[i] == 0xFF
  }

  lemma {:induction false} DataPacketSized(p: pid, pusi: bool, cc: nibble, pcr: Option<u64>, chunk: seq<byte>)
    requires Fits(|chunk|, pcr) && chunk != []
    ensures WellSized(DataPacket(p, pusi, cc, pcr, chunk), pcr.Some?)
  {
    hide EncodePcr;
    var pkt := DataPacket(p, pusi, cc, pcr, chunk);
    var afc := if |chunk| == 184 then 1 else 3;
    HeaderFields(p, pusi, afc, cc);
    assert pkt[..4] == Header(p, pusi, afc, cc);
    assert pkt[3] == pkt[..4][3];
  }

  /** A table packet points at its section at once and is filled up with ones (section 2.4.4). */
  lemma {:induction false} TablePacketFilled(p: pid, cc: nibble, section: seq<byte>)
    requires |section| <= 183
    ensures var pkt := PsiPacket(p, cc, section);
            && pkt[4] == 0 && pkt[5..5 + |section|] == section
            && forall i :: 5 + |section| <= i < 188 ==> pkt[i] == 0xFF
  {
  }

  /** In both tables every reserved bit is set, and the version is zero and current (sections 2.4.4.3 and
      2.4.4.8). */
  lemma {:induction false} ReservedBits(pmt: pid, video: pid, audio: pid)
    ensures var pat, table := PatBody(pmt), PmtBody(video, audio);
            && At(pat, 1) / 16 == 0xB && pat[5] == 0xC1 && At(pat, 10) / 32 == 7
            && At(table, 1) / 16 == 0xB && table[5] == 0xC1
            && At(table, 8) / 32 == 7 && At(table, 10) / 16 == 15
            && At(table, 13) / 32 == 7 && At(table, 15) / 16 == 15
            && At(table, 18) / 32 == 7 && At(table, 20) / 16 == 15
  {
  }

  /** Within a unit only the first packet announces a start, and only it can carry the PCR. */
  lemma {:induction false} UnitShape(p: pid, cc: nibble, payload: seq<byte>, first: bool, pcr: Option<u64>, k: nat)
    requires k < |Packetize(p, cc, payload, first, pcr)|
    ensures var pkt := Packetize(p, cc, payload, first, pcr)[k];
            var t := ParsePacket(pkt);
            t.Some? && t.value.pid == p
            && (t.value.pusi <==> first && k == 0)
            && t.value.pcr == (if first && k == 0 then Pcr33(pcr) else None)
            && WellSized(pkt, t.value.pcr.Some?)
    decreases k
  {
    hide DataPacket, Packetize, ParsePacket, WellSized, Take;
    if payload == [] {
      PacketizeNone(p, cc, first, pcr);
    } else {
      PacketizeUnfold(p, cc, payload, first, pcr);
      var n := Take(|payload|, first && pcr.Some?);
      var chunkPcr := if first then pcr else None;
      if k == 0 {
        ParseDataPacket(p, first, cc, chunkPcr, payload[..n]);
        DataPacketSized(p, first, cc, chunkPcr, payload[..n]);
      } else {
        UnitShape(p, Next(cc), payload[n..], false, pcr, k - 1);
      }
    }
  }

  lemma PacketizeNone(p: pid, cc: nibble, first: bool, pcr: Option<u64>)
    ensures Packetize(p, cc, [], first, pcr) == []
  {
  }

  /** Section 2.4.3.7: the length counts what follows it; zero leaves it open, for video only. */
  predicate LengthAllowed(streamId: byte, pes: seq<byte>)
    requires |pes| >= 6
  {
    Word16(pes, 4) == |pes| - 6 || (Word16(pes, 4) == 0 && streamId / 16 == 0xE)
  }

  /** The PES length field is exact just up to 65527 bytes, for audio as for video, and zero beyond:
      what the standard allows for every video unit, and for audio units up to that size only. */
  lemma PesLengthExact(streamId: byte, pts: u64, data: seq<byte>)
    ensures var pes := BuildPes(streamId, pts, data);
            && (Word16(pes, 4) == |pes| - 6 <==> |data| <= 65527) && (|data| > 65527 ==> Word16(pes, 4) == 0)
            && (LengthAllowed(streamId, pes) <==> |data| <= 65527 || streamId / 16 == 0xE)
  {
  }
}
