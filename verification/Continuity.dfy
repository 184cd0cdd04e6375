/** A stricter receiver, which watches the continuity counters: at a gap it gives up the unit it is
    collecting, unless the unit's length says that it is complete. */
module Continuity {
  import opened Bytes
  import opened Demuxer
  import opened MuxDemux
  import opened MuxPackets
  import opened Muxer
  import opened MuxRuns
  import opened TsFormat

  /** One stream: finished units, the one being collected, and the counter due next. */
  datatype Ear = Ear(done: seq<RawPes>, open: Option<RawPes>, due: Option<int>)

  const SILENT := Ear([], None, None)

  /** The length field says that no byte is missing. */
  predicate Complete(raw: RawPes) {
    |raw.bytes| >= 6 && Word16(raw.bytes, 4) != 0 && |raw.bytes| >= 6 + Word16(raw.bytes, 4)
  }

  function Close(e: Ear, gap: bool): seq<RawPes> {
    match e.open
    case None => e.done
    case Some(raw) => if gap && !Complete(raw) then e.done else e.done + [raw]
  }

  predicate Gap(e: Ear, cc: int) {
    e.due.Some? && e.due.value != cc
  }

  function Hear(e: Ear, p: TsPacket): Ear {
    var due := Some((p.cc + 1) % 16);
    if p.pusi then Ear(Close(e, Gap(e, p.cc)), Some(RawPes(p.pcr, p.payload)), due)
    else if Gap(e, p.cc) then Ear(Close(e, true), None, due)
    else
      match e.open
      case None => e.(due := due)
      case Some(raw) => Ear(e.done, Some(raw.(bytes := raw.bytes + p.payload)), due)
  }

  /** Hears the packets on one PID. */
  function Listen(p: pid, e: Ear, pkts: seq<packet>): Ear
    decreases |pkts|
  {
    if pkts == [] then e else Listen(p, HearOne(p, e, pkts[0]), pkts[1..])
  }

  function HearOne(p: pid, e: Ear, pkt: packet): Ear {
    match ParsePacket(pkt)
    case None => e
    case Some(t) => if t.pid == p then Hear(e, t) else e
  }

  lemma {:induction false} ListenConcat(p: pid, e: Ear, a: seq<packet>, b: seq<packet>)
    ensures Listen(p, e, a + b) == Listen(p, Listen(p, e, a), b)
    decreases |a|
  {
    hide HearOne;
    if a == [] {
      assert a + b == b;
    } else {
      assert (a + b)[1..] == a[1..] + b;
      ListenConcat(p, HearOne(p, e, a[0]), a[1..], b);
    }
  }

  lemma {:induction false} ListenCons(p: pid, e: Ear, pkt: packet, rest: seq<packet>)
    ensures Listen(p, e, [pkt] + rest) == Listen(p, HearOne(p, e, pkt), rest)
  {
    hide HearOne;
    assert ([pkt] + rest)[1..] == rest;
  }

  // ----- one unit -----

  lemma {:induction false} HearData(q: pid, e: Ear, p: pid, pusi: bool, cc: nibble, pcr: Option<u64>, chunk: seq<byte>)
    requires Fits(|chunk|, pcr)
    ensures HearOne(q, e, DataPacket(p, pusi, cc, pcr, chunk))
            == if p == q then Hear(e, TsPacket(p, pusi, cc, Pcr33(pcr), chunk)) else e
  {
    hide ParsePacket, DataPacket, Hear;
    ParseDataPacket(p, pusi, cc, pcr, chunk);
  }

  lemma {:induction false} ListenElsewhere(q: pid, e: Ear, p: pid, cc: nibble, payload: seq<byte>, first: bool,
                                           pcr: Option<u64>)
    requires p != q
    ensures Listen(q, e, Packetize(p, cc, payload, first, pcr)) == e
    decreases |payload|
  {
    hide DataPacket, HearOne, Packetize, Take;
    if payload == [] {
      PacketizeNone(p, cc, first, pcr);
    } else {
      PacketizeUnfold(p, cc, payload, first, pcr);
      var n := Take(|payload|, first && pcr.Some?);
      var chunkPcr := if first then pcr else None;
      HearData(q, e, p, first, cc, chunkPcr, payload[..n]);
      ListenCons(q, e, DataPacket(p, first, cc, chunkPcr, payload[..n]),
                 Packetize(p, Next(cc), payload[n..], false, pcr));
      ListenElsewhere(q, e, p, Next(cc), payload[n..], false, pcr);
    }
  }

  /** Packets in step extend the open unit by exactly the bytes they carry. */
  lemma {:induction false} ListenOn(p: pid, e: Ear, cc: nibble, payload: seq<byte>, pcr: Option<u64>)
    requires e.open.Some? && e.due == Some(cc)
    ensures var pkts := Packetize(p, cc, payload, false, pcr);
            Listen(p, e, pkts)
            == Ear(e.done, Some(e.open.value.(bytes := e.open.value.bytes + payload)), Some(Advance(cc, |pkts|)))
    decreases |payload|
  {
    hide DataPacket, HearOne, Packetize, Take;
    var open := e.open.value;
    if payload == [] {
      PacketizeNone(p, cc, false, pcr);
      assert open.bytes + [] == open.bytes;
    } else {
      PacketizeUnfold(p, cc, payload, false, pcr);
      var n := Take(|payload|, false);
      var pkt, rest := DataPacket(p, false, cc, None, payload[..n]), Packetize(p, Next(cc), payload[n..], false, pcr);
      HearData(p, e, p, false, cc, None, payload[..n]);
      ListenCons(p, e, pkt, rest);
      ListenOn(p, HearOne(p, e, pkt), Next(cc), payload[n..], pcr);
      AdvanceAdd(cc, 1, |rest|);
      ConcatAssoc(open.bytes, payload[..n], payload[n..]);
      assert payload[..n] + payload[n..] == payload;
    }
  }

  /** A whole unit ends the one before it, with or without a gap, and becomes the open one. */
  lemma {:induction false} ListenUnit(p: pid, e: Ear, cc: nibble, payload: seq<byte>, pcr: Option<u64>)
    requires payload != []
    ensures var pkts := Packetize(p, cc, payload, true, pcr);
            Listen(p, e, pkts)
            == Ear(Close(e, Gap(e, cc)), Some(RawPes(Pcr33(pcr), payload)), Some(Advance(cc, |pkts|)))
  {
    hide DataPacket, HearOne, Packetize, Take, Close, Gap;
    PacketizeUnfold(p, cc, payload, true, pcr);
    var n := Take(|payload|, pcr.Some?);
    var pkt, rest := DataPacket(p, true, cc, pcr, payload[..n]), Packetize(p, Next(cc), payload[n..], false, pcr);
    HearData(p, e, p, true, cc, pcr, payload[..n]);
    ListenCons(p, e, pkt, rest);
    ListenOn(p, HearOne(p, e, pkt), Next(cc), payload[n..], pcr);
    AdvanceAdd(cc, 1, |rest|);
    assert payload[..n] + payload[n..] == payload;
  }

  lemma {:induction false} ListenTables(p: pid, e: Ear, c: Counters)
    requires MediaPid(p)
    ensures Listen(p, e, TablePackets(c)) == e
  {
    hide ParsePacket, PsiPacket, PatSection, PmtSection;
    ParsePsiPacket(PID_PAT, c.pat, PatSection(PID_PMT));
    ParsePsiPacket(PID_PMT, c.pmt, PmtSection(PID_VIDEO, PID_AUDIO));
    var pat := PsiPacket(PID_PAT, c.pat, PatSection(PID_PMT));
    var pmt := PsiPacket(PID_PMT, c.pmt, PmtSection(PID_VIDEO, PID_AUDIO));
    assert TablePackets(c) == [pat] + ([pmt] + []);
    ListenCons(p, e, pat, [pmt] + []);
    ListenCons(p, e, pmt, []);
  }

  // ----- one push -----

  /** A unit as sent: its first counter and its number of packets, and what it holds. */
  datatype Sent = Sent(start: nibble, packets: nat, streamId: byte, pts: u64, pcr: Option<int>, data: seq<byte>)

  function Raw(s: Sent): RawPes {
    RawPes(s.pcr, BuildPes(s.streamId, s.pts, s.data))
  }

  function UnitOf(s: Sent): AccessUnit {
    AccessUnit(Clock33(s.pts), s.pcr, s.data)
  }

  /** The unit a push sends on a PID, if it sends one there. */
  function SentOn(p: pid, c: Counters, push: Push): seq<Sent> {
    match push
    case PushVideo(annexb, pts, _) =>
      if p != PID_VIDEO then []
      else [Sent(c.video, |VideoPackets(c.video, annexb, pts)|, STREAM_ID_VIDEO, pts, Some(Clock33(pts)), annexb)]
    case PushAudio(adts, pts) =>
      if p != PID_AUDIO then []
      else [Sent(c.audio, |AudioPackets(c.audio, adts, pts)|, STREAM_ID_AUDIO, pts, None, adts)]
  }

  function HearSent(e: Ear, ss: seq<Sent>): Ear
    decreases |ss|
  {
    if ss == [] then e
    else
      HearSent(Ear(Close(e, Gap(e, ss[0].start)), Some(Raw(ss[0])), Some(Advance(ss[0].start, ss[0].packets))), ss[1..])
  }

  lemma {:induction false} ListenPush(p: pid, e: Ear, c: Counters, push: Push)
    requires MediaPid(p)
    ensures Listen(p, e, PushPackets(c, push)) == HearSent(e, SentOn(p, c, push))
  {
    hide Listen, Packetize, TablePackets, BuildPes, Close, Gap, Advance;
    match push {
      case PushVideo(annexb, pts, keyframe) =>
        var pes := BuildPes(STREAM_ID_VIDEO, pts, annexb);
        var tables := if keyframe then TablePackets(c) else [];
        ListenConcat(p, e, tables, VideoPackets(c.video, annexb, pts));
        ListenTables(p, e, c);
        ListenNothing(p, e);
        if p == PID_VIDEO {
          ListenUnit(p, e, c.video, pes, Some(pts));
        } else {
          ListenElsewhere(p, e, PID_VIDEO, c.video, pes, true, Some(pts));
        }
      case PushAudio(adts, pts) =>
        var pes := BuildPes(STREAM_ID_AUDIO, pts, adts);
        if p == PID_AUDIO {
          ListenUnit(p, e, c.audio, pes, None);
        } else {
          ListenElsewhere(p, e, PID_AUDIO, c.audio, pes, true, None);
        }
    }
  }

  lemma ListenNothing(p: pid, e: Ear)
    ensures Listen(p, e, []) == e
  {
  }

  // ----- a lossy run -----

  /** The units on one PID among the chunks kept, with the counters the muxer gave them. */
  function SentKept(p: pid, c: Counters, pushes: seq<Push>, mask: seq<bool>): seq<Sent>
    requires |mask| == |pushes|
    decreases |pushes|
  {
    if pushes == [] then []
    else (if mask[0] then SentOn(p, c, pushes[0]) else []) + SentKept(p, After(c, pushes[0]), pushes[1..], mask[1..])
  }

  lemma {:induction false} HearSentConcat(e: Ear, a: seq<Sent>, b: seq<Sent>)
    ensures HearSent(e, a + b) == HearSent(HearSent(e, a), b)
    decreases |a|
  {
    hide Close, Gap, Raw, Advance;
    if a == [] {
      assert a + b == b;
    } else {
      assert (a + b)[1..] == a[1..] + b;
      HearSentConcat(Ear(Close(e, Gap(e, a[0].start)), Some(Raw(a[0])), Some(Advance(a[0].start, a[0].packets))),
                     a[1..], b);
    }
  }

  lemma {:induction false} ListenKept(p: pid, e: Ear, c: Counters, pushes: seq<Push>, mask: seq<bool>)
    requires MediaPid(p) && |mask| == |pushes|
    ensures Listen(p, e, Packets(Flatten(Kept(Chunks(c, pushes), mask)))) == HearSent(e, SentKept(p, c, pushes, mask))
    decreases |pushes|
  {
    hide PushPackets, After, Packets, Listen, HearSent, SentOn, Flatten, Kept;
    if pushes == [] {
      KeptNone(Chunks(c, pushes), mask);
      NothingHeard(p, e);
    } else {
      var push, next := pushes[0], After(c, pushes[0]);
      var later := Kept(Chunks(next, pushes[1..]), mask[1..]);
      KeptUnfold(Chunks(c, pushes), mask);
      var rest := SentKept(p, next, pushes[1..], mask[1..]);
      if mask[0] {
        ListenPush(p, e, c, push);
        FlattenFirst(PushPackets(c, push), later);
        ListenConcat(p, e, PushPackets(c, push), Packets(Flatten(later)));
        ListenKept(p, Listen(p, e, PushPackets(c, push)), next, pushes[1..], mask[1..]);
        HearSentConcat(e, SentOn(p, c, push), rest);
      } else {
        ListenKept(p, e, next, pushes[1..], mask[1..]);
        assert [] + rest == rest;
      }
    }
  }

  lemma NothingHeard(p: pid, e: Ear)
    ensures Listen(p, e, Packets(Flatten([]))) == e == HearSent(e, [])
  {
  }

  lemma {:induction false} FlattenFirst(pkts: seq<packet>, rest: seq<seq<byte>>)
    ensures Packets(Flatten([Flatten(pkts)] + rest)) == pkts + Packets(Flatten(rest))
  {
    hide Packets;
    assert ([Flatten(pkts)] + rest)[1..] == rest;
    PacketsOfConcat(pkts, Flatten(rest));
  }

  // ----- what survives -----

  /** The unit is given up: its length is open, and the next unit received does not follow on its counter. */
  predicate GivenUp(s: Sent, next: Sent) {
    |s.data| > 65527 && Advance(s.start, s.packets) != next.start
  }

  function Survivors(ss: seq<Sent>): seq<Sent> {
    if |ss| <= 1 then ss
    else (if GivenUp(ss[0], ss[1]) then [] else [ss[0]]) + Survivors(ss[1..])
  }

  function Raws(ss: seq<Sent>): seq<RawPes> {
    if ss == [] then [] else [Raw(ss[0])] + Raws(ss[1..])
  }

  function UnitsOf(ss: seq<Sent>): seq<AccessUnit> {
    if ss == [] then [] else [UnitOf(ss[0])] + UnitsOf(ss[1..])
  }

  lemma {:induction false} CompleteExact(s: Sent)
    ensures Complete(Raw(s)) <==> |s.data| <= 65527
  {
    hide BuildPes;
    PesLengthExact(s.streamId, s.pts, s.data);
  }

  /** After one unit, a run of units leaves what survives of all of them. */
  lemma {:induction false} HeardSurvivors(done: seq<RawPes>, s: Sent, ss: seq<Sent>)
    ensures Close(HearSent(Ear(done, Some(Raw(s)), Some(Advance(s.start, s.packets))), ss), false)
            == done + Raws(Survivors([s] + ss))
    decreases |ss|
  {
    hide Raw, Advance, Complete;
    var e := Ear(done, Some(Raw(s)), Some(Advance(s.start, s.packets)));
    if ss == [] {
      assert [s] + ss == [s];
      assert Raws([s]) == [Raw(s)];
    } else {
      var all := [s] + ss;
      CompleteExact(s);
      assert all[1..] == ss && [ss[0]] + ss[1..] == ss;
      var kept := Close(e, Gap(e, ss[0].start));
      HeardSurvivors(kept, ss[0], ss[1..]);
      if !GivenUp(s, ss[0]) {
        RawsCons(s, Survivors(ss));
        ConcatAssoc(done, [Raw(s)], Raws(Survivors(ss)));
      } else {
        assert [] + Survivors(ss) == Survivors(ss);
      }
    }
  }

  lemma RawsCons(s: Sent, ss: seq<Sent>)
    ensures Raws([s] + ss) == [Raw(s)] + Raws(ss)
  {
    hide Raw;
    assert ([s] + ss)[1..] == ss;
  }

  predicate OnStream(streamId: byte, ss: seq<Sent>) {
    forall i :: 0 <= i < |ss| ==> ss[i].streamId == streamId
  }

  lemma {:induction false} RawsParse(streamId: byte, ss: seq<Sent>)
    requires OnStream(streamId, ss)
    ensures Units(streamId, Raws(ss)) == UnitsOf(ss)
  {
    hide ParsePes, BuildPes;
    if ss == [] {
    } else {
      PesRoundTrip(ss[0].streamId, ss[0].pts, ss[0].data, ss[0].pcr);
      RawsParse(streamId, ss[1..]);
      assert Raws(ss)[1..] == Raws(ss[1..]);
    }
  }

  lemma {:induction false} SurvivorsOnStream(streamId: byte, ss: seq<Sent>)
    requires OnStream(streamId, ss)
    ensures OnStream(streamId, Survivors(ss))
  {
    hide GivenUp;
    if |ss| <= 1 {
    } else {
      SurvivorsOnStream(streamId, ss[1..]);
    }
  }

  function StreamOf(p: pid): byte {
    if p == PID_VIDEO then STREAM_ID_VIDEO else STREAM_ID_AUDIO
  }

  lemma {:induction false} KeptOnStream(p: pid, c: Counters, pushes: seq<Push>, mask: seq<bool>)
    requires MediaPid(p) && |mask| == |pushes|
    ensures OnStream(StreamOf(p), SentKept(p, c, pushes, mask))
    decreases |pushes|
  {
    hide After, Packetize;
    if pushes == [] {
    } else {
      KeptOnStream(p, After(c, pushes[0]), pushes[1..], mask[1..]);
    }
  }

  /** Main result: over any run and any lost chunks, a receiver of one stream that gives units up at
      counter gaps recovers exactly the received units but those of more than 65527 bytes whose
      successor does not follow on their counter. */
  lemma {:induction false} StrictRecover(p: pid, c: Counters, pushes: seq<Push>, mask: seq<bool>)
    requires MediaPid(p) && |mask| == |pushes|
    ensures var heard := Close(Listen(p, SILENT, Packets(Flatten(Kept(Chunks(c, pushes), mask)))), false);
            Units(StreamOf(p), heard) == UnitsOf(Survivors(SentKept(p, c, pushes, mask)))
  {
    hide Chunks, Kept, Packets, Listen, SentKept, Survivors, Units, Raw, UnitOf, OnStream, Advance;
    var ss := SentKept(p, c, pushes, mask);
    ListenKept(p, SILENT, c, pushes, mask);
    if ss == [] {
      NoneSurvive();
    } else {
      HeardSurvivors([], ss[0], ss[1..]);
      assert [ss[0]] + ss[1..] == ss;
      assert [] + Raws(Survivors(ss)) == Raws(Survivors(ss));
    }
    KeptOnStream(p, c, pushes, mask);
    SurvivorsOnStream(StreamOf(p), ss);
    RawsParse(StreamOf(p), Survivors(ss));
  }

  lemma NoneSurvive()
    ensures Survivors([]) == [] && Raws([]) == []
  {
  }

  /** Units of at most 65527 bytes survive any loss. */
  lemma {:induction false} BoundedSurvive(ss: seq<Sent>)
    requires forall i :: 0 <= i < |ss| ==> |ss[i].data| <= 65527
    ensures Survivors(ss) == ss
  {
    if |ss| <= 1 {
    } else {
      BoundedSurvive(ss[1..]);
    }
  }

  function CounterOf(p: pid, c: Counters): nibble {
    if p == PID_VIDEO then c.video else c.audio
  }

  lemma {:induction false} SentInStep(p: pid, c: Counters, push: Push)
    requires MediaPid(p)
    ensures var sent := SentOn(p, c, push);
            && |sent| <= 1
            && (sent == [] ==> CounterOf(p, After(c, push)) == CounterOf(p, c))
            && (sent != [] ==> sent[0].start == CounterOf(p, c)
                               && Advance(sent[0].start, sent[0].packets) == CounterOf(p, After(c, push)))
  {
    hide Packetize, BuildPes, Advance;
  }

  lemma SurvivorsCons(s: Sent, ss: seq<Sent>)
    requires Survivors(ss) == ss && (ss != [] ==> Advance(s.start, s.packets) == ss[0].start)
    ensures Survivors([s] + ss) == [s] + ss
  {
    hide Advance;
    assert ([s] + ss)[1..] == ss;
  }

  /** Without loss every unit survives, whatever its size. */
  lemma {:induction false} UnbrokenSurvives(p: pid, c: Counters, pushes: seq<Push>)
    requires MediaPid(p)
    ensures var ss := SentKept(p, c, pushes, seq(|pushes|, _ => true));
            Survivors(ss) == ss && (ss != [] ==> ss[0].start == CounterOf(p, c))
    decreases |pushes|
  {
    hide After, SentOn, Survivors, Advance, CounterOf;
    if pushes == [] {
      NoneSurvive();
    } else {
      var mask := seq(|pushes|, _ => true);
      assert mask[1..] == seq(|pushes[1..]|, _ => true);
      var next := After(c, pushes[0]);
      UnbrokenSurvives(p, next, pushes[1..]);
      SentInStep(p, c, pushes[0]);
      var first, rest := SentOn(p, c, pushes[0]), SentKept(p, next, pushes[1..], mask[1..]);
      if first == [] {
        assert first + rest == rest;
      } else {
        assert first == [first[0]];
        SurvivorsCons(first[0], rest);
      }
    }
  }
}
