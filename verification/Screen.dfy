/** From the NAL units the encoder produced to those a renderer's decoder is given: the rewriting to
    Annex B, the pipeline, the muxer, the lossy channel, a receiver and a splitter in one. */
module Screen {
  import opened AnnexB
  import opened Bytes
  import opened Demuxer
  import opened LiveMirror
  import opened MuxDemux
  import opened Muxer
  import opened MuxRuns
  import opened Pipeline

  /** One encoded sample: the units of its buffer and what is cut off at the end, the parameter sets of
      its format, and its presentation time. */
  datatype Picture = Picture(units: seq<seq<byte>>, rest: seq<byte>, parameterSets: seq<seq<byte>>, pts: u64)

  predicate WellFormed(p: Picture) {
    && Lengths(p.units) && !HoldsUnit(p.rest)
    && (forall i :: 0 <= i < |p.units| ==> EmulationFree(p.units[i]))
    && forall i :: 0 <= i < |p.parameterSets| ==> EmulationFree(p.parameterSets[i])
  }

  function Avcc(p: Picture): seq<byte>
    requires WellFormed(p)
  {
    LengthPrefixed(p.units) + p.rest
  }

  predicate Keyframe(p: Picture)
    requires WellFormed(p)
  {
    IDR in NalTypes(Avcc(p))
  }

  /** What the encoder hands to the pipeline for a sample. */
  function Encoded(p: Picture): Pipeline.Frame
    requires WellFormed(p)
  {
    Pipeline.Frame(Sample(Avcc(p), p.parameterSets), p.pts, Keyframe(p))
  }

  type Pictures = ps: seq<Picture> | forall i :: 0 <= i < |ps| ==> WellFormed(ps[i])

  function EncodedAll(ps: Pictures): (r: seq<Pipeline.Frame>)
    ensures |r| == |ps|
  {
    seq(|ps|, i requires 0 <= i < |ps| => Encoded(ps[i]))
  }

  /** The NAL units a decoder should be given for a sample, and when to show it. */
  datatype Shown = Shown(pts: int, units: seq<seq<byte>>)

  function ShownOf(p: Picture): Shown
    requires WellFormed(p)
  {
    Shown(Clock33(p.pts), (if Keyframe(p) then p.parameterSets else []) + p.units)
  }

  function ShownAll(ps: Pictures): seq<Shown> {
    if ps == [] then [] else [ShownOf(ps[0])] + ShownAll(ps[1..])
  }

  /** The samples from the first keyframe on. */
  function FromKey(ps: Pictures): Pictures {
    if ps == [] || Keyframe(ps[0]) then ps else FromKey(ps[1..])
  }

  /** What a splitter makes of received access units. */
  function SplitAll(us: seq<AccessUnit>): seq<Shown> {
    if us == [] then [] else [Shown(us[0].pts, Split(us[0].data))] + SplitAll(us[1..])
  }

  function PushesOf(ps: Pictures): (r: seq<Push>)
    ensures |r| == |ps|
  {
    AsPushes(EncodedAll(ps))
  }

  lemma {:induction false} PushesFirst(ps: Pictures)
    requires ps != []
    ensures PushesOf(ps) == PushesOf([ps[0]]) + PushesOf(ps[1..])
  {
    hide Encoded, WellFormed;
  }

  lemma {:induction false} PushesCons(p: Picture, ps: Pictures)
    requires WellFormed(p)
    ensures PushesOf([p] + ps) == PushesOf([p]) + PushesOf(ps)
  {
    hide Encoded, WellFormed;
  }

  lemma {:induction false} KeptPictures(ps: Pictures, mask: seq<bool>) returns (kept: Pictures)
    requires |mask| == |ps|
    ensures kept == Kept(ps, mask) && PushesOf(kept) == Kept(PushesOf(ps), mask)
  {
    hide Encoded, WellFormed, Kept, PushesOf;
    if ps == [] {
      kept := [];
      KeptNone(ps, mask);
      KeptNone(PushesOf(ps), mask);
    } else {
      var later := KeptPictures(ps[1..], mask[1..]);
      KeptUnfold(ps, mask);
      KeptUnfold(PushesOf(ps), mask);
      PushesFirst(ps);
      PushesCons(ps[0], later);
      assert PushesOf(ps)[1..] == PushesOf(ps[1..]);
      assert PushesOf([ps[0]]) == [PushesOf(ps)[0]];
      kept := if mask[0] then [ps[0]] + later else later;
    }
  }

  lemma {:induction false} FromKeyPushes(ps: Pictures)
    ensures FromKeyframe(PushesOf(ps)) == PushesOf(FromKey(ps))
  {
    hide WellFormed, Keyframe, Sample, Avcc;
    if ps == [] {
    } else {
      assert PushesOf(ps)[1..] == PushesOf(ps[1..]);
      FromKeyPushes(ps[1..]);
    }
  }

  lemma {:induction false} SplitShown(p: Picture)
    requires WellFormed(p)
    ensures Split(Encoded(p).data) == ShownOf(p).units
  {
    hide Split, Sample, NalTypes, EmulationFree, HoldsUnit, Lengths, LengthPrefixed;
    SampleRecovered(p.units, p.rest, p.parameterSets);
  }

  lemma {:induction false} SplitVideo(ps: Pictures)
    ensures SplitAll(VideoOf(PushesOf(ps))) == ShownAll(ps)
  {
    hide WellFormed, Keyframe, Sample, Avcc, Split;
    if ps == [] {
    } else {
      var later := PushesOf(ps[1..]);
      assert PushesOf(ps)[1..] == later;
      SplitShown(ps[0]);
      SplitVideo(ps[1..]);
      var first := AccessUnit(Clock33(ps[0].pts), Some(Clock33(ps[0].pts)), Encoded(ps[0]).data);
      assert VideoOf(PushesOf(ps)) == [first] + VideoOf(later);
      assert ([first] + VideoOf(later))[1..] == VideoOf(later);
    }
  }

  /** Main result: in every reachable state of the pipeline, whatever chunks a client received, a
      receiver and a splitter give the decoder exactly the NAL units of a subsequence of the encoded
      samples, unchanged, in order and with their times, from the first keyframe on, each keyframe
      behind its parameter sets. */
  lemma {:induction false} EncoderToDecoder(s: Pipeline.State, c: Counters, ps: Pictures, start: nat, next: nat,
                                            received: seq<seq<byte>>)
      returns (seen: Pictures)
    requires Reachable(s) && s.encoded == EncodedAll(ps)
    requires ReceivedFrom(Chunks(c, AsPushes(s.pushed)), start, next, received)
    ensures next <= |ps| && Subsequence(seen, ps[start..next])
    ensures SplitAll(VideoUnits(Feed(FRESH, Packets(Flatten(received))))) == ShownAll(FromKey(seen))
  {
    hide Chunks, Feed, Packets, VideoUnits, AsPushes, Encoded, WellFormed, FromKeyframe, FromKey;
    var pushes := EncoderToScreen(s, c, start, next, received);
    var mask: seq<bool> :| |mask| == next - start && pushes == Kept(AsPushes(s.encoded)[start..next], mask);
    PushesBetween(ps, start, next);
    seen := KeptPictures(ps[start..next], mask);
    FromKeyPushes(seen);
    SplitVideo(FromKey(seen));
  }

  lemma {:induction false} PushesBetween(ps: Pictures, start: nat, next: nat)
    requires start <= next <= |ps|
    ensures PushesOf(ps)[start..next] == PushesOf(ps[start..next])
  {
  }
}
