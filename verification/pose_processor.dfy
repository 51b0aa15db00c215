/** The frame loop of `extract_world_landmarks`, statement by statement:
    a `while True` over decoded frames with a running position `idx`, the
    stride test that skips a frame, one detector call per kept frame, a record
    appended only when both point lists are present, and the `finally` block
    that releases the decoder and closes the detector on every way out. */
module PoseProcessor {
  import opened Wrappers
  import opened Landmarks
  import opened Sampling
  import opened Tracker
  import opened Records
  import opened Response
  import opened Pipeline

  /** Runs the loop over `source` and returns the response (or the failure)
      together with the log of detector calls and releases. Its outcome is
      exactly the reference pipeline's. */
  method ExtractWorldLandmarks<I, S>(source: Source<I>, stride: int, detect: (S, I) -> Step<S>, s0: S, now: string)
    returns (run: Run)
    ensures run == ExtractSpec(source, stride, detect, s0, now)
  {
    if source.Unopenable? {
      return Run(Failure(UnableToOpen), []);
    }
    var video := source.frames;
    var meta := ReadMetadata(source.props);
    var tracker := s0;
    var frames: seq<FrameRecord> := [];
    var log: seq<Event> := [];
    ghost var replies: seq<Reply> := [];
    var idx: nat := 0;
    while true
      invariant idx <= |video|
      invariant Progress(video, stride, detect, s0, idx) == Running(tracker, replies, frames, log)
      decreases |video| - idx
    {
      if idx == |video| {
        // `cap.read()` reports failure: the container is exhausted
        break;
      }
      var frame := video[idx];
      if stride > 1 && idx % stride != 0 {
        SkippedFrame(video, stride, detect, s0, idx + 1);
        idx := idx + 1;
        continue;
      }
      log := log + [Detect(idx)];
      var step := detect(tracker, frame);
      if step.Raised? {
        // the exception leaves the loop through the `finally` block
        RaisedFrame(video, stride, detect, s0, idx + 1, step.cause);
        StoppedRun(video, source.props, stride, detect, s0, now, idx + 1);
        return Run(Failure(OracleFailed(step.cause)), log + FinallyEvents);
      }
      AnsweredFrame(video, stride, detect, s0, idx + 1, step.next, step.reply);
      tracker := step.next;
      var reply := step.reply;
      frames := AppendRecord(frames, idx, reply);
      replies := replies + [reply];
      idx := idx + 1;
    }
    // the exhausted container leaves the loop through the `finally` block too
    FinishedRun(video, source.props, stride, detect, s0, now);
    return Run(Success(Assemble(frames, meta, now)), log + FinallyEvents);
  }

  /** The body of the `if` on a reply: a record built from both normalised
      lists is appended when both are present, and nothing otherwise. */
  method AppendRecord(frames: seq<FrameRecord>, idx: nat, reply: Reply) returns (frames': seq<FrameRecord>)
    ensures frames' == frames + (match RecordOf(idx, reply) case Some(rec) => [rec] case None => [])
  {
    frames' := frames;
    if reply.imageLandmarks.Some? && reply.worldLandmarks.Some? {
      var imageLandmarks := NormalizeAll(reply.imageLandmarks.value);
      var worldLandmarks := NormalizeAll(reply.worldLandmarks.value);
      frames' := frames' + [FrameRecord(idx, imageLandmarks, worldLandmarks, None)];
    }
  }

  /** Where the loop stands once it has looked at the first `n` frames:
      still reading, with the detector's state, its replies, the records and
      the call log so far; or stopped by the exception the detector raised on
      the frame at position `at`. */
  datatype Stage<S> =
    | Running(tracker: S, replies: seq<Reply>, frames: seq<FrameRecord>, log: seq<Event>)
    | Stopped(cause: string, at: nat, log: seq<Event>)

  /** One iteration of the loop on the frame at position `idx`: a stopped
      loop stays stopped, a frame the stride rule skips changes nothing, and
      a kept frame is logged and handed to the detector, whose exception stops
      the loop and whose reply is kept together with its record, if any. */
  function Advance<I, S>(stride: int, detect: (S, I) -> Step<S>, idx: nat, frame: I, st: Stage<S>): (next: Stage<S>)
    ensures st.Stopped? ==> next == st
    ensures next.Stopped? ==> next == st || next.at == idx
  {
    match st
    case Stopped(_, _, _) => st
    case Running(tracker, replies, frames, log) =>
      if !ShouldProcess(idx, stride) then st
      else
        match detect(tracker, frame)
        case Raised(cause) => Stopped(cause, idx, log + [Detect(idx)])
        case Returned(next, reply) =>
          Running(next, replies + [reply],
                  frames + (match RecordOf(idx, reply) case Some(rec) => [rec] case None => []),
                  log + [Detect(idx)])
  }

  /** Where the loop stands once it has looked at the first `n` frames. */
  ghost function Progress<I, S>(video: seq<I>, stride: int, detect: (S, I) -> Step<S>, s0: S, n: nat): (st: Stage<S>)
    requires n <= |video|
    ensures st.Stopped? ==> st.at < n
  {
    if n == 0 then Running(s0, [], [], [])
    else Advance(stride, detect, n - 1, video[n - 1], Progress(video, stride, detect, s0, n - 1))
  }

  /** A frame the stride rule skips leaves the loop where it was. */
  lemma SkippedFrame<I, S>(video: seq<I>, stride: int, detect: (S, I) -> Step<S>, s0: S, n: nat)
    requires 0 < n <= |video| && !ShouldProcess(n - 1, stride)
    ensures Progress(video, stride, detect, s0, n) == Progress(video, stride, detect, s0, n - 1)
  {
  }

  /** A kept frame the detector answers extends the replies, the records
      and the log of a running loop. */
  lemma AnsweredFrame<I, S>(video: seq<I>, stride: int, detect: (S, I) -> Step<S>, s0: S, n: nat, next: S, reply: Reply)
    requires 0 < n <= |video| && ShouldProcess(n - 1, stride)
    requires Progress(video, stride, detect, s0, n - 1).Running?
    requires detect(Progress(video, stride, detect, s0, n - 1).tracker, video[n - 1]) == Returned(next, reply)
    ensures var st := Progress(video, stride, detect, s0, n - 1);
      Progress(video, stride, detect, s0, n) ==
        Running(next, st.replies + [reply],
                st.frames + (match RecordOf(n - 1, reply) case Some(rec) => [rec] case None => []),
                st.log + [Detect(n - 1)])
  {
  }

  /** A kept frame on which the detector raises stops a running loop, with
      that frame's call as the last entry of the log. */
  lemma RaisedFrame<I, S>(video: seq<I>, stride: int, detect: (S, I) -> Step<S>, s0: S, n: nat, cause: string)
    requires 0 < n <= |video| && ShouldProcess(n - 1, stride)
    requires Progress(video, stride, detect, s0, n - 1).Running?
    requires detect(Progress(video, stride, detect, s0, n - 1).tracker, video[n - 1]) == Raised(cause)
    ensures Progress(video, stride, detect, s0, n) ==
      Stopped(cause, n - 1, Progress(video, stride, detect, s0, n - 1).log + [Detect(n - 1)])
  {
  }

  /** What a stage of the loop means in terms of the reference quantities:
      while it runs, the detector has seen exactly the sampled frames so far,
      the records are those of their replies and the log lists one call per
      sampled position; once it stops, tracking the sampled frames up to the
      failing one crashes on that frame, and the log ends with its call. */
  ghost predicate Agrees<I, S>(video: seq<I>, stride: int, detect: (S, I) -> Step<S>, s0: S, n: nat, st: Stage<S>)
    requires n <= |video|
  {
    match st
    case Running(tracker, replies, frames, log) =>
      var idxs := SampledIndices(n, stride);
      && Track(detect, s0, Pick(video, idxs)) == Tracked(replies, tracker)
      && frames == RecordsOf(idxs, replies)
      && log == DetectEvents(idxs)
    case Stopped(cause, at, log) =>
      && at < n
      && var idxs := SampledIndices(at + 1, stride);
      && |idxs| >= 1
      && Track(detect, s0, Pick(video, idxs)) == Crashed(cause, |idxs| - 1)
      && log == DetectEvents(idxs)
  }

  /** The frame-by-frame loop computes the reference quantities. */
  lemma {:induction false} ProgressAgrees<I, S>(video: seq<I>, stride: int, detect: (S, I) -> Step<S>, s0: S, n: nat)
    requires n <= |video|
    ensures Agrees(video, stride, detect, s0, n, Progress(video, stride, detect, s0, n))
  {
    if n == 0 {
      AgreesAtStart(video, stride, detect, s0);
    } else {
      ProgressAgrees(video, stride, detect, s0, n - 1);
      AgreesStep(video, stride, detect, s0, n, Progress(video, stride, detect, s0, n - 1));
    }
  }

  /** Before the first frame nothing has been sampled, fed or logged. */
  lemma AgreesAtStart<I, S>(video: seq<I>, stride: int, detect: (S, I) -> Step<S>, s0: S)
    ensures Agrees(video, stride, detect, s0, 0, Running(s0, [], [], []))
  {
    assert SampledIndices(0, stride) == [];
    assert Pick(video, []) == [];
    assert Track(detect, s0, []) == Tracked([], s0);
    assert RecordsOf([], []) == [];
    assert DetectEvents([]) == [];
  }

  /** Looking at one more frame keeps the loop in agreement with the
      reference quantities. */
  lemma AgreesStep<I, S>(video: seq<I>, stride: int, detect: (S, I) -> Step<S>, s0: S, n: nat, st: Stage<S>)
    requires 0 < n <= |video|
    ensures Agrees(video, stride, detect, s0, n - 1, st) ==>
      Agrees(video, stride, detect, s0, n, Advance(stride, detect, n - 1, video[n - 1], st))
  {
    if !Agrees(video, stride, detect, s0, n - 1, st) {
      return;
    }
    match st
    case Stopped(_, _, _) =>
      AgreesWhenStopped(video, stride, detect, s0, n, st);
    case Running(tracker, replies, frames, log) =>
      if !ShouldProcess(n - 1, stride) {
        AgreesOnSkippedFrame(video, stride, detect, s0, n, st);
      } else {
        match detect(tracker, video[n - 1])
        case Raised(cause) =>
          AgreesOnRaise(video, stride, detect, s0, n, st, cause);
        case Returned(next, reply) =>
          AgreesOnReply(video, stride, detect, s0, n, st, next, reply);
      }
  }

  /** A stopped loop stays in agreement as frames go by. */
  lemma AgreesWhenStopped<I, S>(video: seq<I>, stride: int, detect: (S, I) -> Step<S>, s0: S, n: nat, st: Stage<S>)
    requires 0 < n <= |video| && st.Stopped?
    requires Agrees(video, stride, detect, s0, n - 1, st)
    ensures Agrees(video, stride, detect, s0, n, st)
  {
  }

  /** A frame the stride rule skips adds no sampled position. */
  lemma AgreesOnSkippedFrame<I, S>(video: seq<I>, stride: int, detect: (S, I) -> Step<S>, s0: S, n: nat, st: Stage<S>)
    requires 0 < n <= |video| && st.Running? && !ShouldProcess(n - 1, stride)
    requires Agrees(video, stride, detect, s0, n - 1, st)
    ensures Agrees(video, stride, detect, s0, n, st)
  {
    SampledSnoc(n, stride);
  }

  /** A kept frame on which the detector raises: tracking the sampled
      frames up to it crashes on it, and the log ends with its call. */
  lemma AgreesOnRaise<I, S>(video: seq<I>, stride: int, detect: (S, I) -> Step<S>, s0: S, n: nat, st: Stage<S>, cause: string)
    requires 0 < n <= |video| && st.Running? && ShouldProcess(n - 1, stride)
    requires Agrees(video, stride, detect, s0, n - 1, st)
    requires detect(st.tracker, video[n - 1]) == Raised(cause)
    ensures Agrees(video, stride, detect, s0, n, Stopped(cause, n - 1, st.log + [Detect(n - 1)]))
  {
    RaiseEndsTracking(video, stride, detect, s0, n, st.replies, st.tracker, cause);
    CallExtendsLog(n, stride);
  }

  /** A kept frame that the detector answers: the reply joins the replies,
      its record, if any, joins the records, and its call joins the log. */
  lemma AgreesOnReply<I, S>(video: seq<I>, stride: int, detect: (S, I) -> Step<S>, s0: S, n: nat, st: Stage<S>, next: S, reply: Reply)
    requires 0 < n <= |video| && st.Running? && ShouldProcess(n - 1, stride)
    requires Agrees(video, stride, detect, s0, n - 1, st)
    requires detect(st.tracker, video[n - 1]) == Returned(next, reply)
    ensures Agrees(video, stride, detect, s0, n,
      Running(next, st.replies + [reply],
              st.frames + (match RecordOf(n - 1, reply) case Some(rec) => [rec] case None => []),
              st.log + [Detect(n - 1)]))
  {
    ReplyExtendsTracking(video, stride, detect, s0, n, st.replies, st.tracker, next, reply);
    ReplyExtendsRecords(n, stride, st.replies, reply);
    CallExtendsLog(n, stride);
  }

  lemma RaiseEndsTracking<I, S>(video: seq<I>, stride: int, detect: (S, I) -> Step<S>, s0: S, n: nat,
                                replies: seq<Reply>, tracker: S, cause: string)
    requires 0 < n <= |video| && ShouldProcess(n - 1, stride)
    requires Track(detect, s0, Pick(video, SampledIndices(n - 1, stride))) == Tracked(replies, tracker)
    requires detect(tracker, video[n - 1]) == Raised(cause)
    ensures var idxs := SampledIndices(n, stride);
      |idxs| >= 1 && Track(detect, s0, Pick(video, idxs)) == Crashed(cause, |idxs| - 1)
  {
    var idxs := SampledIndices(n - 1, stride);
    SampledSnoc(n, stride);
    PickSnoc(video, idxs, n - 1);
    TrackSnoc(detect, s0, Pick(video, idxs), video[n - 1]);
  }

  lemma ReplyExtendsTracking<I, S>(video: seq<I>, stride: int, detect: (S, I) -> Step<S>, s0: S, n: nat,
                                   replies: seq<Reply>, tracker: S, next: S, reply: Reply)
    requires 0 < n <= |video| && ShouldProcess(n - 1, stride)
    requires Track(detect, s0, Pick(video, SampledIndices(n - 1, stride))) == Tracked(replies, tracker)
    requires detect(tracker, video[n - 1]) == Returned(next, reply)
    ensures Track(detect, s0, Pick(video, SampledIndices(n, stride))) == Tracked(replies + [reply], next)
  {
    var idxs := SampledIndices(n - 1, stride);
    SampledSnoc(n, stride);
    PickSnoc(video, idxs, n - 1);
    TrackSnoc(detect, s0, Pick(video, idxs), video[n - 1]);
  }

  lemma ReplyExtendsRecords(n: nat, stride: int, replies: seq<Reply>, reply: Reply)
    requires 0 < n && ShouldProcess(n - 1, stride)
    requires |replies| == |SampledIndices(n - 1, stride)|
    ensures |replies + [reply]| == |SampledIndices(n, stride)|
    ensures RecordsOf(SampledIndices(n, stride), replies + [reply]) ==
      RecordsOf(SampledIndices(n - 1, stride), replies)
      + (match RecordOf(n - 1, reply) case Some(rec) => [rec] case None => [])
  {
    SampledSnoc(n, stride);
    RecordsOfSnoc(SampledIndices(n - 1, stride), replies, n - 1, reply);
  }

  lemma CallExtendsLog(n: nat, stride: int)
    requires 0 < n && ShouldProcess(n - 1, stride)
    ensures DetectEvents(SampledIndices(n, stride)) == DetectEvents(SampledIndices(n - 1, stride)) + [Detect(n - 1)]
  {
    SampledSnoc(n, stride);
    DetectEventsSnoc(SampledIndices(n - 1, stride), n - 1);
  }

  /** A loop that reads every frame without an exception ends with the
      reference pipeline's response and call log. */
  lemma FinishedRun<I, S>(video: seq<I>, props: VideoProps, stride: int, detect: (S, I) -> Step<S>, s0: S, now: string)
    requires Progress(video, stride, detect, s0, |video|).Running?
    ensures var st := Progress(video, stride, detect, s0, |video|);
      ExtractSpec(Opened(video, props), stride, detect, s0, now) ==
        Run(Success(Assemble(st.frames, ReadMetadata(props), now)), st.log + FinallyEvents)
  {
    ProgressAgrees(video, stride, detect, s0, |video|);
    var st := Progress(video, stride, detect, s0, |video|);
    SpecOnCompletion(video, props, stride, detect, s0, now, st.replies, st.tracker);
  }

  /** A loop stopped by an exception fails with the reference pipeline's
      failure and call log, whichever frame it stopped on. */
  lemma StoppedRun<I, S>(video: seq<I>, props: VideoProps, stride: int, detect: (S, I) -> Step<S>, s0: S, now: string, n: nat)
    requires n <= |video| && Progress(video, stride, detect, s0, n).Stopped?
    ensures var st := Progress(video, stride, detect, s0, n);
      ExtractSpec(Opened(video, props), stride, detect, s0, now) ==
        Run(Failure(OracleFailed(st.cause)), st.log + FinallyEvents)
  {
    ProgressAgrees(video, stride, detect, s0, n);
    var st := Progress(video, stride, detect, s0, n);
    var k := |SampledIndices(st.at + 1, stride)| - 1;
    SpecOnCrash(video, props, stride, detect, s0, now, st.at + 1, st.cause, k);
  }
}
