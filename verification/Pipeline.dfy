/** The mirror pipeline as a transition system: a blocking capture-and-encode loop, a bounded queue,
    the pump task that feeds the session, and the teardown that stops them. */
module Pipeline {
  import opened Bytes
  import Muxer
  import MuxRuns
  import LiveMirror
  import Demuxer

  const QUEUE_CAPACITY: nat := 120

  datatype Frame = Frame(data: seq<byte>, pts: u64, keyframe: bool)

  /** `Grabbing` covers grabbing a frame and encoding it; a loop with units left is sending. */
  datatype Capture = Grabbing | Sending | Finished
  datatype Pump = Pumping | Stopping | Exited
  datatype Teardown = Running | Signalled | PumpJoined | Done

  /** `encoded` is everything the encoder returned, `pending` what the loop has yet to send,
      `dropped` what was discarded, `lateSends` the sends attempted on a dropped receiver. */
  datatype State = State(
    capture: Capture, pump: Pump, teardown: Teardown,
    encoded: seq<Frame>, pending: seq<Frame>, queue: seq<Frame>, pushed: seq<Frame>,
    dropped: seq<Frame>, lateSends: nat)

  const INITIAL := State(Grabbing, Pumping, Running, [], [], [], [], [], 0)

  datatype Action =
    | Encode(units: seq<Frame>)  // the next frame was captured and encoded
    | EndCapture                 // no further frame, or the encoder failed
    | SendUnit                   // a blocking send that finds room
    | SendRefused                // a send on a dropped receiver
    | PumpUnit                   // the pump receives a unit and muxes it
    | PumpClosed                 // the pump finds the queue empty and its sender gone
    | TakeStop                   // the pump's select takes the stop branch
    | ExitPump                   // the session is stopped; the receiver is dropped
    | SignalStop
    | JoinPump
    | JoinCapture

  predicate Enabled(s: State, a: Action) {
    match a
    case Encode(_) => s.capture.Grabbing?
    case EndCapture => s.capture.Grabbing?
    case SendUnit => s.capture.Sending? && !s.pump.Exited? && |s.queue| < QUEUE_CAPACITY
    case SendRefused => s.capture.Sending? && s.pump.Exited?
    case PumpUnit => s.pump.Pumping? && s.queue != []
    case PumpClosed => s.pump.Pumping? && s.queue == [] && s.capture.Finished?
    case TakeStop => s.pump.Pumping? && !s.teardown.Running?
    case ExitPump => s.pump.Stopping?
    case SignalStop => s.teardown.Running?
    case JoinPump => s.teardown.Signalled? && s.pump.Exited?
    case JoinCapture => s.teardown.PumpJoined? && s.capture.Finished?
  }

  function Apply(s: State, a: Action): State
    requires Enabled(s, a)
    requires a.SendUnit? ==> s.pending != []
  {
    match a
    case Encode(units) =>
      s.(encoded := s.encoded + units, pending := units, capture := if units == [] then Grabbing else Sending)
    case EndCapture => s.(capture := Finished)
    case SendUnit =>
      s.(queue := s.queue + [s.pending[0]], pending := s.pending[1..],
         capture := if |s.pending| == 1 then Grabbing else Sending)
    case SendRefused =>
      s.(capture := Finished, dropped := s.dropped + s.pending, pending := [], lateSends := s.lateSends + 1)
    case PumpUnit => s.(pushed := s.pushed + [s.queue[0]], queue := s.queue[1..])
    case PumpClosed => s.(pump := Stopping)
    case TakeStop => s.(pump := Stopping)
    case ExitPump => s.(pump := Exited, dropped := s.dropped + s.queue, queue := [])
    case SignalStop => s.(teardown := Signalled)
    case JoinPump => s.(teardown := PumpJoined)
    case JoinCapture => s.(teardown := Done)
  }

  /** Every unit encoded is in one place, and the places are in order. */
  predicate Accounted(s: State) {
    && s.encoded == s.pushed + s.dropped + s.queue + s.pending
    && (!s.pump.Exited? ==> s.dropped == [])
    && (s.pump.Exited? ==> s.queue == [])
    && (s.capture.Sending? <==> s.pending != [])
  }

  /** The queue is bounded, and who is over when. */
  predicate Ordered(s: State) {
    && |s.queue| <= QUEUE_CAPACITY
    && (!s.pump.Exited? ==> s.lateSends == 0)
    && s.lateSends <= 1
    && (s.lateSends == 1 ==> s.capture.Finished?)
    && (s.teardown.PumpJoined? || s.teardown.Done? ==> s.pump.Exited?)
    && (s.teardown.Done? ==> s.capture.Finished?)
    && (!s.pump.Pumping? && s.teardown.Running? ==>
          s.capture.Finished? && s.queue == [] && s.dropped == [] && s.lateSends == 0)
  }

  /** What every reachable state satisfies. */
  predicate Inv(s: State) {
    Accounted(s) && Ordered(s)
  }

  lemma {:induction false} AccountedPreserved(s: State, a: Action)
    requires Accounted(s) && Enabled(s, a)
    ensures Accounted(Apply(s, a))
  {
    var done := s.pushed + s.dropped;
    match a {
      case Encode(units) => assert s.encoded + units == done + s.queue + units;
      case SendUnit => HeadMoves(done, s.queue, s.pending);
      case SendRefused => assert s.pushed + (s.dropped + s.pending) == done + [] + s.pending;
      case PumpUnit => HeadMoves([], s.pushed, s.queue);
      case ExitPump => assert s.pushed + (s.dropped + s.queue) == done + s.queue;
      case _ =>
    }
  }

  lemma HeadMoves(a: seq<Frame>, b: seq<Frame>, c: seq<Frame>)
    requires c != []
    ensures a + (b + [c[0]]) + c[1..] == a + b + c
  {
  }

  lemma {:induction false} OrderedPreserved(s: State, a: Action)
    requires Inv(s) && Enabled(s, a)
    ensures Ordered(Apply(s, a))
  {
  }

  lemma {:induction false} InvPreserved(s: State, a: Action)
    requires Inv(s) && Enabled(s, a)
    ensures Inv(Apply(s, a))
  {
    AccountedPreserved(s, a);
    OrderedPreserved(s, a);
    hide Apply, Accounted, Ordered;
  }

  /** A legal run from `s`, and where it ends. */
  predicate Legal(s: State, run: seq<Action>)
    requires Inv(s)
    decreases |run|
  {
    run == []
    || (Enabled(s, run[0]) && (InvPreserved(s, run[0]); Legal(Apply(s, run[0]), run[1..])))
  }

  function End(s: State, run: seq<Action>): State
    requires Inv(s) && Legal(s, run)
    decreases |run|
  {
    if run == [] then s else InvPreserved(s, run[0]); End(Apply(s, run[0]), run[1..])
  }

  lemma {:induction false} InvAlways(s: State, run: seq<Action>)
    requires Inv(s) && Legal(s, run)
    ensures Inv(End(s, run))
    decreases |run|
  {
    if run == [] {
    } else {
      InvPreserved(s, run[0]);
      InvAlways(Apply(s, run[0]), run[1..]);
    }
  }

  ghost predicate Reachable(s: State) {
    exists run: seq<Action> :: Legal(INITIAL, run) && End(INITIAL, run) == s
  }

  lemma ReachableInv(s: State)
    requires Reachable(s)
    ensures Inv(s)
  {
    var run: seq<Action> :| Legal(INITIAL, run) && End(INITIAL, run) == s;
    InvAlways(INITIAL, run);
  }

  /** Nothing is reordered, duplicated or lost before the receiver goes: what was muxed, queued and
      not yet sent is exactly what was encoded; afterwards what was muxed is still a prefix of it. */
  lemma Conservation(s: State)
    requires Reachable(s)
    ensures |s.queue| <= 120 && s.pushed <= s.encoded
    ensures !s.pump.Exited? ==> s.encoded == s.pushed + s.queue + s.pending
  {
    ReachableInv(s);
    if !s.pump.Exited? {
      assert s.pushed + [] + s.queue + s.pending == s.pushed + s.queue + s.pending;
    }
    assert s.encoded[..|s.pushed|] == s.pushed;
  }

  /** When the mirror ends by itself, without a stop, everything encoded has been muxed. */
  lemma {:induction false} NaturalEndMuxesAll(s: State)
    requires Reachable(s) && !s.pump.Pumping? && s.teardown.Running?
    ensures s.pushed == s.encoded && s.capture.Finished?
  {
    hide Reachable;
    ReachableInv(s);
    assert s.pushed + [] + [] + [] == s.pushed;
  }

  /** Once the pump has left its loop nothing more is muxed. */
  lemma {:induction false} NothingMuxedAfterStop(s: State, run: seq<Action>)
    requires Inv(s) && Legal(s, run) && !s.pump.Pumping?
    ensures End(s, run).pushed == s.pushed && !End(s, run).pump.Pumping?
    decreases |run|
  {
    if run == [] {
    } else {
      InvPreserved(s, run[0]);
      NothingMuxedAfterStop(Apply(s, run[0]), run[1..]);
    }
  }

  lemma {:induction false} SendAll(s: State, n: nat) returns (run: seq<Action>)
    requires Inv(s) && s.pump.Pumping? && n <= |s.pending| && |s.queue| + n <= QUEUE_CAPACITY
    ensures Legal(s, run)
    ensures var t := End(s, run);
            t.queue == s.queue + s.pending[..n] && t.pending == s.pending[n..] && t.pump.Pumping?
    decreases n
  {
    if n == 0 {
      run := [];
      assert s.queue + s.pending[..0] == s.queue;
    } else {
      InvPreserved(s, SendUnit);
      var t := Apply(s, SendUnit);
      assert t.queue == s.queue + [s.pending[0]] && t.pending == s.pending[1..] && t.pump.Pumping?;
      hide Inv, Apply;
      var later := SendAll(t, n - 1);
      run := [SendUnit] + later;
      assert run[1..] == later;
      assert s.queue + [s.pending[0]] + s.pending[1..][..n - 1] == s.queue + s.pending[..n];
    }
  }

  /** The queue fills up to 120 units and no further: any so many units can be waiting in it while another
      is to be sent, and the capture loop then waits for the pump exactly if they are 120. */
  lemma {:induction false} QueueFills(frames: seq<Frame>, next: Frame) returns (s: State)
    requires |frames| <= 120
    ensures Reachable(s) && s.queue == frames && s.pending == [next]
    ensures WaitsFor(s, CaptureLoop) == Some(PumpTask) <==> |frames| == 120
  {
    var units := frames + [next];
    InvPreserved(INITIAL, Encode(units));
    var t := Apply(INITIAL, Encode(units));
    var later := SendAll(t, |frames|);
    var run := [Encode(units)] + later;
    assert run[1..] == later;
    s := End(INITIAL, run);
    assert s == End(t, later);
    InvAlways(t, later);
    assert units[..|frames|] == frames && units[|frames|..] == [next];
    assert Legal(INITIAL, run) && End(INITIAL, run) == s;
  }

  /** Once the receiver is dropped the capture loop makes at most one more send, and that ends it. */
  lemma AtMostOneLateSend(s: State)
    requires Reachable(s)
    ensures s.lateSends <= 1 && (s.lateSends == 1 ==> s.capture.Finished?)
  {
    ReachableInv(s);
  }

  // ----- no circular wait -----

  datatype Process = CaptureLoop | PumpTask | TeardownTask

  /** The process whose progress `p` is waiting for, if any; calls into the platform and the network
      are taken to return. */
  function WaitsFor(s: State, p: Process): Option<Process> {
    match p
    case CaptureLoop =>
      if s.capture.Sending? && !s.pump.Exited? && |s.queue| == QUEUE_CAPACITY then Some(PumpTask) else None
    case PumpTask =>
      if s.pump.Pumping? && s.queue == [] && !s.capture.Finished? && s.teardown.Running? then Some(CaptureLoop)
      else None
    case TeardownTask =>
      if s.teardown.Signalled? && !s.pump.Exited? then Some(PumpTask)
      else if s.teardown.PumpJoined? && !s.capture.Finished? then Some(CaptureLoop)
      else None
  }

  /** The process has a step of its own to take. */
  predicate CanMove(s: State, p: Process) {
    match p
    case CaptureLoop => Enabled(s, EndCapture) || Enabled(s, SendUnit) || Enabled(s, SendRefused)
    case PumpTask => Enabled(s, PumpUnit) || Enabled(s, PumpClosed) || Enabled(s, TakeStop) || Enabled(s, ExitPump)
    case TeardownTask => Enabled(s, SignalStop) || Enabled(s, JoinPump) || Enabled(s, JoinCapture)
  }

  predicate Over(s: State, p: Process) {
    match p
    case CaptureLoop => s.capture.Finished?
    case PumpTask => s.pump.Exited?
    case TeardownTask => s.teardown.Done?
  }

  /** `WaitsFor` is exact: a process has no step just when it is over or waits for another. */
  lemma {:induction false} StuckIffWaiting(s: State, p: Process)
    requires Reachable(s)
    ensures !CanMove(s, p) <==> Over(s, p) || WaitsFor(s, p).Some?
  {
    ReachableInv(s);
    StuckMeans(s, p);
    hide Reachable, Inv, CanMove, WaitsFor, Over;
  }

  lemma {:induction false} StuckMeans(s: State, p: Process)
    requires Inv(s)
    ensures !CanMove(s, p) <==> Over(s, p) || WaitsFor(s, p).Some?
  {
    match p {
      case CaptureLoop =>
      case PumpTask =>
      case TeardownTask =>
    }
  }

  /** Where following who waits for whom ends, after at most so many hops. */
  function Blocker(s: State, p: Process, hops: nat): Process
    decreases hops
  {
    match WaitsFor(s, p)
    case None => p
    case Some(q) => if hops == 0 then p else Blocker(s, q, hops - 1)
  }

  /** No circular wait and no deadlock, full queue or not: a process that is not over can move, or
      waits, over at most two hops, for one that can. */
  lemma NoCircularWait(s: State, p: Process)
    requires Reachable(s) && !Over(s, p)
    ensures var q := Blocker(s, p, 2);
            WaitsFor(s, q) == None && CanMove(s, q)
  {
    hide Reachable;
    ReachableInv(s);
  }

  // ----- how much can still happen once the stop branch is taken -----

  predicate StopTaken(s: State) {
    !s.pump.Pumping? && !s.teardown.Running?
  }

  /** An encoder that swallows a frame makes no progress; everything else does. */
  predicate Productive(a: Action) {
    a != Encode([])
  }

  function Measure(s: State): nat
    requires |s.queue| <= QUEUE_CAPACITY
  {
    (match s.teardown case Running => 3 case Signalled => 2 case PumpJoined => 1 case Done => 0)
    + (if s.pump.Exited? then 0 else 1 + 2 * (QUEUE_CAPACITY - |s.queue|))
    + (if s.capture.Finished? then 0 else 2)
    + (if s.pending == [] then 1 else 0)
  }

  lemma MeasureStep(s: State, a: Action)
    requires Inv(s) && StopTaken(s) && Enabled(s, a)
    ensures Inv(Apply(s, a)) && StopTaken(Apply(s, a))
    ensures Measure(Apply(s, a)) + (if Productive(a) then 1 else 0) <= Measure(s)
  {
    InvPreserved(s, a);
  }

  function ProductiveSteps(run: seq<Action>): nat {
    if run == [] then 0 else (if Productive(run[0]) then 1 else 0) + ProductiveSteps(run[1..])
  }

  /** From the moment the pump takes the stop branch, only so many steps remain besides frames the
      encoder swallows. */
  lemma {:induction false} TeardownIsBounded(s: State, run: seq<Action>)
    requires Inv(s) && StopTaken(s) && Legal(s, run)
    ensures ProductiveSteps(run) <= Measure(s) <= 2 * QUEUE_CAPACITY + 6
    decreases |run|
  {
    if run == [] {
    } else {
      MeasureStep(s, run[0]);
      TeardownIsBounded(Apply(s, run[0]), run[1..]);
    }
  }

  /** Where a run can get no further, every process is over. */
  lemma {:induction false} StoppedMeansDone(s: State)
    requires Inv(s) && StopTaken(s)
    requires forall a :: Enabled(s, a) ==> !Productive(a)
    ensures s.teardown.Done? && s.capture.Finished? && s.pump.Exited?
  {
    assert !Enabled(s, ExitPump);
    assert !Enabled(s, EndCapture);
    assert !Enabled(s, SendUnit) && !Enabled(s, SendRefused);
    assert !Enabled(s, JoinPump) && !Enabled(s, JoinCapture);
  }

  /** Main result: a run from the stop branch on that goes as far as it can takes at most 246 steps,
      besides frames the encoder swallows, and ends with teardown, capture and pump over. */
  lemma {:induction false} TeardownEnds(s: State, run: seq<Action>)
    requires Inv(s) && StopTaken(s) && Legal(s, run)
    requires forall a :: Enabled(End(s, run), a) ==> !Productive(a)
    ensures ProductiveSteps(run) <= 246
    ensures var t := End(s, run);
            t.teardown.Done? && t.capture.Finished? && t.pump.Exited?
  {
    TeardownIsBounded(s, run);
    InvAlways(s, run);
    StopStays(s, run);
    StoppedMeansDone(End(s, run));
  }

  lemma {:induction false} StopStays(s: State, run: seq<Action>)
    requires Inv(s) && StopTaken(s) && Legal(s, run)
    ensures StopTaken(End(s, run))
    decreases |run|
  {
    if run == [] {
    } else {
      MeasureStep(s, run[0]);
      StopStays(Apply(s, run[0]), run[1..]);
    }
  }

  // ----- from the encoder to the screen -----

  function AsPushes(frames: seq<Frame>): (r: seq<Muxer.Push>)
    ensures |r| == |frames|
  {
    seq(|frames|, i requires 0 <= i < |frames| =>
      Muxer.PushVideo(frames[i].data, frames[i].pts, frames[i].keyframe))
  }

  lemma AsPushesPrefix(a: seq<Frame>, b: seq<Frame>, start: nat, next: nat)
    requires a <= b && start <= next <= |a|
    ensures AsPushes(a)[start..next] == AsPushes(b)[start..next]
  {
  }

  /** End to end: in every reachable state, what any client has received decodes to the frames of a
      subsequence of what the encoder returned, from the first keyframe among them on. */
  lemma {:induction false} EncoderToScreen(s: State, c: Muxer.Counters, start: nat, next: nat,
                                          received: seq<seq<byte>>)
      returns (seen: seq<Muxer.Push>)
    requires Reachable(s)
    requires LiveMirror.ReceivedFrom(MuxRuns.Chunks(c, AsPushes(s.pushed)), start, next, received)
    ensures next <= |s.encoded|
    ensures LiveMirror.Subsequence(seen, AsPushes(s.encoded)[start..next])
    ensures Demuxer.VideoUnits(Demuxer.Feed(Demuxer.FRESH, Demuxer.Packets(Flatten(received))))
            == MuxRuns.VideoOf(MuxRuns.FromKeyframe(seen))
  {
    hide MuxRuns.Chunks, Demuxer.Feed, Demuxer.Packets, Demuxer.VideoUnits, Demuxer.AudioUnits, AsPushes;
    Conservation(s);
    seen := LiveMirror.ClientRecovers(c, AsPushes(s.pushed), start, next, received);
    AsPushesPrefix(s.pushed, s.encoded, start, next);
  }
}
