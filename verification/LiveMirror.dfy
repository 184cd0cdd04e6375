/** The live fan-out: a mirror session muxes each unit into one chunk and publishes it on a bounded
    broadcast channel; every client reads at its own pace and silently skips what it missed. */
module LiveMirror {
  import opened Bytes
  import opened Muxer
  import opened MuxRuns
  import Demuxer

  /** Chunks a client may fall behind before the oldest are overwritten. */
  const CHANNEL_CAPACITY: nat := 512

  function AfterAll(c: Counters, pushes: seq<Push>): Counters
    decreases |pushes|
  {
    if pushes == [] then c else AfterAll(After(c, pushes[0]), pushes[1..])
  }

  lemma {:induction false} ChunksConcat(c: Counters, a: seq<Push>, b: seq<Push>)
    ensures Chunks(c, a + b) == Chunks(c, a) + Chunks(AfterAll(c, a), b)
    ensures AfterAll(c, a + b) == AfterAll(AfterAll(c, a), b)
    decreases |a|
  {
    hide After, PushPackets, Flatten;
    if a == [] {
      assert a + b == b;
    } else {
      assert (a + b)[1..] == a[1..] + b;
      ChunksConcat(After(c, a[0]), a[1..], b);
    }
  }

  lemma ChunksOne(c: Counters, push: Push)
    ensures Chunks(c, [push]) == [Flatten(PushPackets(c, push))] && AfterAll(c, [push]) == After(c, push)
  {
  }

  lemma {:induction false} ChunksBetween(c: Counters, pushes: seq<Push>, from: nat, to: nat)
    requires from <= to <= |pushes|
    ensures Chunks(c, pushes)[from..to] == Chunks(AfterAll(c, pushes[..from]), pushes[from..to])
  {
    hide AfterAll, Chunks;
    assert pushes == pushes[..from] + (pushes[from..to] + pushes[to..]);
    ChunksConcat(c, pushes[..from], pushes[from..to] + pushes[to..]);
    ChunksConcat(AfterAll(c, pushes[..from]), pushes[from..to], pushes[to..]);
  }

  // ----- the channel -----

  class LiveStream {
    /** Everything published so far; a client can still read the last `CHANNEL_CAPACITY` chunks. */
    var log: seq<seq<byte>>

    constructor ()
      ensures log == []
    {
      log := [];
    }

    method Publish(chunk: seq<byte>)
      modifies this
      ensures log == old(log) + [chunk]
    {
      log := log + [chunk];
    }
  }

  /** `received` is a subsequence of the chunks published from `start` up to `next`. */
  ghost predicate ReceivedFrom(log: seq<seq<byte>>, start: nat, next: nat, received: seq<seq<byte>>) {
    start <= next <= |log|
    && exists mask: seq<bool> :: |mask| == next - start && received == Kept(log[start..next], mask)
  }

  lemma ReceivedBounds(log: seq<seq<byte>>, start: nat, next: nat, received: seq<seq<byte>>)
    requires ReceivedFrom(log, start, next, received)
    ensures start <= next <= |log|
  {
  }

  /** Publishing more changes nothing about what a client has received. */
  lemma ReceivedStays(log: seq<seq<byte>>, more: seq<seq<byte>>, start: nat, next: nat, received: seq<seq<byte>>)
    requires ReceivedFrom(log, start, next, received)
    ensures ReceivedFrom(log + more, start, next, received)
  {
    var mask: seq<bool> :| |mask| == next - start && received == Kept(log[start..next], mask);
    assert (log + more)[start..next] == log[start..next];
  }

  lemma {:induction false} KeptNothing<T>(s: seq<T>)
    ensures Kept(s, seq(|s|, _ => false)) == []
  {
    if s == [] {
    } else {
      KeptNothing(s[1..]);
      assert seq(|s|, _ => false)[1..] == seq(|s[1..]|, _ => false);
    }
  }

  lemma ReceivedSkip(log: seq<seq<byte>>, start: nat, next: nat, received: seq<seq<byte>>, skip: nat)
    requires ReceivedFrom(log, start, next, received)
    requires next <= skip < |log|
    ensures ReceivedFrom(log, start, skip + 1, received + [log[skip]])
  {
    hide Kept;
    var mask: seq<bool> :| |mask| == next - start && received == Kept(log[start..next], mask);
    var missed, none := log[next..skip], seq(skip - next, _ => false);
    KeptNothing(missed);
    KeptOne(log[skip]);
    KeptConcat(missed, none, [log[skip]], [true]);
    KeptConcat(log[start..next], mask, missed + [log[skip]], none + [true]);
    assert log[next..skip + 1] == missed + [log[skip]];
    assert log[start..skip + 1] == log[start..next] + log[next..skip + 1];
  }

  lemma KeptOne<T>(x: T)
    ensures Kept([x], [true]) == [x]
  {
  }

  /** One connected renderer. */
  class Client {
    const live: LiveStream
    const start: nat
    var next: nat
    var received: seq<seq<byte>>

    ghost predicate Valid()
      reads this, live
    {
      ReceivedFrom(live.log, start, next, received)
    }

    /** Subscribing starts behind everything published so far. */
    constructor (live: LiveStream)
      ensures this.live == live && start == next == |live.log| && received == []
      ensures Valid()
    {
      this.live := live;
      start := |live.log|;
      next := |live.log|;
      received := [];
      assert [] == Kept<seq<byte>>(live.log[|live.log|..|live.log|], []);
    }

    /** The next chunk, if one is ready: a lagging client is moved to the oldest chunk still
        buffered, and the lag itself is not reported. */
    method Poll() returns (item: Option<seq<byte>>)
      requires Valid()
      modifies this
      ensures Valid()
      ensures old(next) == |live.log| ==> item == None && next == old(next) && received == old(received)
      ensures old(next) < |live.log| ==>
        var at := if |live.log| - old(next) > 512 then |live.log| - 512 else old(next);
        item == Some(live.log[at]) && next == at + 1 && received == old(received) + [live.log[at]]
    {
      hide ReceivedFrom;
      ReceivedBounds(live.log, start, next, received);
      ghost var was := next;
      item := None;
      if |live.log| - next > CHANNEL_CAPACITY {
        next := |live.log| - CHANNEL_CAPACITY;
      }
      if next < |live.log| {
        ReceivedSkip(live.log, start, was, received, next);
        item := Some(live.log[next]);
        received := received + [live.log[next]];
        next := next + 1;
      }
    }
  }

  // ----- the session -----

  class LiveMirrorSession {
    const live: LiveStream
    const muxer: MpegTsMuxer
    ghost var pushes: seq<Push>

    /** The channel holds one chunk for each unit pushed, muxed by one muxer in push order. */
    ghost predicate Valid()
      reads this, live, muxer
    {
      live.log == Chunks(ZERO, pushes) && muxer.State() == AfterAll(ZERO, pushes)
    }

    constructor ()
      ensures Valid() && pushes == []
      ensures fresh(live) && fresh(muxer)
    {
      live := new LiveStream();
      muxer := new MpegTsMuxer();
      pushes := [];
    }

    ghost method Record(push: Push, before: seq<Push>)
      requires pushes == before
      requires live.log == Chunks(ZERO, before) + [Flatten(PushPackets(AfterAll(ZERO, before), push))]
      requires muxer.State() == After(AfterAll(ZERO, before), push)
      modifies this`pushes
      ensures Valid() && pushes == before + [push]
    {
      hide PushPackets, After, Chunks, AfterAll;
      ChunksConcat(ZERO, before, [push]);
      ChunksOne(AfterAll(ZERO, before), push);
      pushes := pushes + [push];
    }

    method PushAccessUnit(annexb: seq<byte>, pts: u64, keyframe: bool)
      requires Valid()
      modifies this, live, muxer
      ensures Valid() && pushes == old(pushes) + [PushVideo(annexb, pts, keyframe)]
      ensures live.log
              == old(live.log) + [Flatten(PushPackets(AfterAll(ZERO, old(pushes)), PushVideo(annexb, pts, keyframe)))]
    {
      hide PushPackets, After, Chunks, AfterAll;
      var ts := muxer.PushAccessUnit(annexb, pts, keyframe);
      live.Publish(ts);
      Record(PushVideo(annexb, pts, keyframe), old(pushes));
    }

    method PushAudioAccessUnit(adts: seq<byte>, pts: u64)
      requires Valid()
      modifies this, live, muxer
      ensures Valid() && pushes == old(pushes) + [PushAudio(adts, pts)]
      ensures live.log
              == old(live.log) + [Flatten(PushPackets(AfterAll(ZERO, old(pushes)), PushAudio(adts, pts)))]
    {
      hide PushPackets, After, Chunks, AfterAll;
      var ts := muxer.PushAudioAccessUnit(adts, pts);
      live.Publish(ts);
      Record(PushAudio(adts, pts), old(pushes));
    }
  }

  /** `some` is a subsequence of `all`. */
  ghost predicate Subsequence<T(!new)>(some: seq<T>, all: seq<T>) {
    exists mask: seq<bool> :: |mask| == |all| && some == Kept(all, mask)
  }

  /** Whenever it connects and however far it lags, a client's bytes decode to whole units only:
      those of a subsequence of the pushes made since it connected, from the first keyframe on. */
  lemma {:induction false} ClientRecovers(c: Counters, pushes: seq<Push>, start: nat, next: nat,
                                         received: seq<seq<byte>>)
      returns (seen: seq<Push>)
    requires ReceivedFrom(Chunks(c, pushes), start, next, received)
    ensures next <= |pushes| && Subsequence(seen, pushes[start..next])
    ensures var end := Demuxer.Feed(Demuxer.FRESH, Demuxer.Packets(Flatten(received)));
            |Flatten(received)| % 188 == 0
            && Demuxer.VideoUnits(end) == VideoOf(FromKeyframe(seen))
            && Demuxer.AudioUnits(end) == AudioOf(FromKeyframe(seen))
  {
    hide Chunks, AfterAll, Demuxer.Feed, Demuxer.Packets, Demuxer.VideoUnits, Demuxer.AudioUnits;
    var log := Chunks(c, pushes);
    var mask: seq<bool> :| |mask| == next - start && received == Kept(log[start..next], mask);
    ChunksBetween(c, pushes, start, next);
    seen := Kept(pushes[start..next], mask);
    JoinAndRecover(AfterAll(c, pushes[..start]), pushes[start..next], mask);
  }
}
