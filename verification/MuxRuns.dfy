/** Whole runs of the muxer: what a lossy or late receiver recovers, and what every packet carries. */
module MuxRuns {
  import opened Bytes
  import opened TsFormat
  import opened Muxer
  import opened Demuxer
  import opened MuxDemux

  /** The chunks of a run, one for each push. */
  function Chunks(c: Counters, pushes: seq<Push>): (r: seq<seq<byte>>)
    ensures |r| == |pushes|
    decreases |pushes|
  {
    if pushes == [] then []
    else [Flatten(PushPackets(c, pushes[0]))] + Chunks(After(c, pushes[0]), pushes[1..])
  }

  // ----- recovery -----

  function UnderstandAll(r: Receiver, pushes: seq<Push>): Receiver
    decreases |pushes|
  {
    if pushes == [] then r else UnderstandAll(Understand(r, pushes[0]), pushes[1..])
  }

  /** Whatever chunks are kept, the receiver ends where the kept pushes alone lead it. */
  lemma {:induction false} FeedKept(r: Receiver, c: Counters, pushes: seq<Push>, mask: seq<bool>)
    requires Plausible(r) && |mask| == |pushes|
    ensures |Flatten(Kept(Chunks(c, pushes), mask))| % 188 == 0
    ensures Feed(r, Packets(Flatten(Kept(Chunks(c, pushes), mask)))) == UnderstandAll(r, Kept(pushes, mask))
    decreases |pushes|
  {
    if pushes == [] {
    } else {
      hide PushPackets, After, Packets, Understand, Feed, Flatten, UnderstandAll, Kept;
      var push, next := pushes[0], After(c, pushes[0]);
      var later := Chunks(next, pushes[1..]);
      KeptUnfold(Chunks(c, pushes), mask);
      KeptUnfold(pushes, mask);
      if mask[0] {
        FeedFirst(r, c, push, Kept(later, mask[1..]));
        UnderstandFirst(r, push, Kept(pushes[1..], mask[1..]));
        FeedPush(r, c, push);
        FeedKept(Understand(r, push), next, pushes[1..], mask[1..]);
      } else {
        FeedKept(r, next, pushes[1..], mask[1..]);
      }
    }
  }

  lemma {:induction false} FeedFirst(r: Receiver, c: Counters, push: Push, rest: seq<seq<byte>>)
    ensures var pkts := PushPackets(c, push);
            var stream := Flatten([Flatten(pkts)] + rest);
            |stream| % 188 == |Flatten(rest)| % 188
            && Feed(r, Packets(stream)) == Feed(Feed(r, pkts), Packets(Flatten(rest)))
  {
    hide PushPackets, Packets, Feed;
    var pkts := PushPackets(c, push);
    assert ([Flatten(pkts)] + rest)[1..] == rest;
    PacketsOfConcat(pkts, Flatten(rest));
    FeedConcat(r, pkts, Packets(Flatten(rest)));
  }

  lemma UnderstandFirst(r: Receiver, push: Push, rest: seq<Push>)
    ensures UnderstandAll(r, [push] + rest) == UnderstandAll(Understand(r, push), rest)
  {
  }

  /** The units a list of pushes holds for each stream, as a renderer should see them. */
  function VideoOf(pushes: seq<Push>): seq<AccessUnit> {
    if pushes == [] then [] else VideoIn(pushes[0]) + VideoOf(pushes[1..])
  }

  function AudioOf(pushes: seq<Push>): seq<AccessUnit> {
    if pushes == [] then [] else AudioIn(pushes[0]) + AudioOf(pushes[1..])
  }

  function VideoIn(push: Push): seq<AccessUnit> {
    match push
    case PushVideo(annexb, pts, _) => [AccessUnit(Clock33(pts), Some(Clock33(pts)), annexb)]
    case PushAudio(_, _) => []
  }

  function AudioIn(push: Push): seq<AccessUnit> {
    match push
    case PushVideo(_, _, _) => []
    case PushAudio(adts, pts) => [AccessUnit(Clock33(pts), None, adts)]
  }

  /** The pushes from the first keyframe on: all that can be understood without prior knowledge. */
  function FromKeyframe(pushes: seq<Push>): seq<Push> {
    if pushes == [] then []
    else if pushes[0].PushVideo? && pushes[0].keyframe then pushes
    else FromKeyframe(pushes[1..])
  }

  lemma UnitsSnoc(streamId: byte, units: seq<RawPes>, raw: RawPes, u: AccessUnit)
    requires ParsePes(streamId, raw) == Some(u)
    ensures Units(streamId, units + [raw]) == Units(streamId, units) + [u]
  {
    UnitsConcat(streamId, units, [raw]);
    assert Units(streamId, [raw]) == [u];
  }

  lemma UnderstandUnits(r: Receiver, push: Push)
    requires r.streams.Some?
    ensures VideoUnits(Understand(r, push)) == VideoUnits(r) + VideoIn(push)
    ensures AudioUnits(Understand(r, push)) == AudioUnits(r) + AudioIn(push)
    ensures Understand(r, push).streams.Some?
  {
    hide ParsePes, BuildPes, Units;
    match push {
      case PushVideo(annexb, pts, keyframe) =>
        PesRoundTrip(STREAM_ID_VIDEO, pts, annexb, Some(Clock33(pts)));
        UnitsSnoc(STREAM_ID_VIDEO, r.video, RawPes(Some(Clock33(pts)), BuildPes(STREAM_ID_VIDEO, pts, annexb)),
                  AccessUnit(Clock33(pts), Some(Clock33(pts)), annexb));
      case PushAudio(adts, pts) =>
        PesRoundTrip(STREAM_ID_AUDIO, pts, adts, None);
        UnitsSnoc(STREAM_ID_AUDIO, r.audio, RawPes(None, BuildPes(STREAM_ID_AUDIO, pts, adts)),
                  AccessUnit(Clock33(pts), None, adts));
    }
  }

  lemma UnfoldFirst(r: Receiver, pushes: seq<Push>)
    requires pushes != []
    ensures UnderstandAll(r, pushes) == UnderstandAll(Understand(r, pushes[0]), pushes[1..])
    ensures VideoOf(pushes) == VideoIn(pushes[0]) + VideoOf(pushes[1..])
    ensures AudioOf(pushes) == AudioIn(pushes[0]) + AudioOf(pushes[1..])
  {
  }

  lemma {:induction false} TunedUnits(r: Receiver, pushes: seq<Push>)
    requires r.streams.Some?
    ensures VideoUnits(UnderstandAll(r, pushes)) == VideoUnits(r) + VideoOf(pushes)
    ensures AudioUnits(UnderstandAll(r, pushes)) == AudioUnits(r) + AudioOf(pushes)
    decreases |pushes|
  {
    if pushes == [] {
      hide VideoUnits, AudioUnits;
      assert VideoUnits(r) + [] == VideoUnits(r) && AudioUnits(r) + [] == AudioUnits(r);
    } else {
      hide Understand, UnderstandAll, VideoUnits, AudioUnits, VideoIn, AudioIn, VideoOf, AudioOf;
      UnfoldFirst(r, pushes);
      UnderstandUnits(r, pushes[0]);
      TunedUnits(Understand(r, pushes[0]), pushes[1..]);
      ConcatAssoc(VideoUnits(r), VideoIn(pushes[0]), VideoOf(pushes[1..]));
      ConcatAssoc(AudioUnits(r), AudioIn(pushes[0]), AudioOf(pushes[1..]));
    }
  }

  lemma {:induction false} UntunedUnits(pushes: seq<Push>)
    ensures VideoUnits(UnderstandAll(FRESH, pushes)) == VideoOf(FromKeyframe(pushes))
    ensures AudioUnits(UnderstandAll(FRESH, pushes)) == AudioOf(FromKeyframe(pushes))
  {
    if pushes == [] {
    } else {
      if pushes[0].PushVideo? && pushes[0].keyframe {
        hide ParsePes, BuildPes;
        var tuned := Receiver(Some(PROGRAM), Some(STREAMS), [], []);
        assert Understand(FRESH, pushes[0]) == Understand(tuned, pushes[0]);
        TunedUnits(tuned, pushes);
      } else {
        UntunedUnits(pushes[1..]);
      }
    }
  }

  /** Main result. For every run, from any counter state, and whatever chunks are lost: a receiver
      that knows nothing beforehand recovers, per stream and in order, exactly the units received
      from the first keyframe on, with their presentation times and clock references. */
  lemma {:induction false} JoinAndRecover(c: Counters, pushes: seq<Push>, mask: seq<bool>)
    requires |mask| == |pushes|
    ensures var stream := Flatten(Kept(Chunks(c, pushes), mask));
            var received := FromKeyframe(Kept(pushes, mask));
            var end := Feed(FRESH, Packets(stream));
            |stream| % 188 == 0 && VideoUnits(end) == VideoOf(received) && AudioUnits(end) == AudioOf(received)
  {
    FeedKept(FRESH, c, pushes, mask);
    UntunedUnits(Kept(pushes, mask));
  }

  /** A receiver that already knows the PIDs recovers every received unit. */
  lemma {:induction false} TunedRecover(r: Receiver, c: Counters, pushes: seq<Push>, mask: seq<bool>)
    requires |mask| == |pushes|
    requires Plausible(r) && r.streams.Some?
    ensures var end := Feed(r, Packets(Flatten(Kept(Chunks(c, pushes), mask))));
            VideoUnits(end) == VideoUnits(r) + VideoOf(Kept(pushes, mask))
            && AudioUnits(end) == AudioUnits(r) + AudioOf(Kept(pushes, mask))
  {
    FeedKept(r, c, pushes, mask);
    TunedUnits(r, Kept(pushes, mask));
  }
}
