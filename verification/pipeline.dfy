/** The whole of `extract_world_landmarks` as a pipeline: open the video,
    read its metadata, sample positions by the stride rule, run the tracker
    over the sampled frames in order, keep the records of replies that carry
    both lists, release the decoder and the detector, and assemble the
    response. This is the reference the frame loop is proved against. */
module Pipeline {
  import opened Wrappers
  import opened Sampling
  import opened Tracker
  import opened Records
  import opened Response

  /** The video as the decoder sees it: either it cannot be opened, or it
      yields a finite sequence of frames and its container properties. */
  datatype Source<I> = Unopenable | Opened(frames: seq<I>, props: VideoProps)

  /** Observable resource and detector events, in the order they happen:
      a detector call on the frame at a position, `cap.release()`, `pose.close()`. */
  datatype Event = Detect(frameIndex: nat) | ReleaseCapture | ClosePose

  /** Why a run fails: the video could not be opened (`ValueError("Unable
      to open video")`), or a detector call raised. */
  datatype Failure = UnableToOpen | OracleFailed(cause: string)

  datatype Run = Run(result: Result<Response, Failure>, log: seq<Event>)

  /** The `finally` block: release the decoder, then close the detector. */
  const FinallyEvents: seq<Event> := [ReleaseCapture, ClosePose]

  /** The frames at the given positions, in order. */
  function Pick<I>(video: seq<I>, idxs: seq<nat>): (images: seq<I>)
    requires forall k :: 0 <= k < |idxs| ==> idxs[k] < |video|
    ensures |images| == |idxs|
    ensures forall k :: 0 <= k < |idxs| ==> images[k] == video[idxs[k]]
  {
    seq(|idxs|, k requires 0 <= k < |idxs| => video[idxs[k]])
  }

  /** The detector-call events for the given positions, in order. */
  function DetectEvents(idxs: seq<nat>): (log: seq<Event>)
    ensures |log| == |idxs|
    ensures forall k :: 0 <= k < |idxs| ==> log[k] == Detect(idxs[k])
  {
    seq(|idxs|, k requires 0 <= k < |idxs| => Detect(idxs[k]))
  }

  /** Picking one more position appends that frame. */
  lemma PickSnoc<I>(video: seq<I>, idxs: seq<nat>, i: nat)
    requires forall k :: 0 <= k < |idxs| ==> idxs[k] < |video|
    requires i < |video|
    ensures Pick(video, idxs + [i]) == Pick(video, idxs) + [video[i]]
  {
  }

  /** One more call appends one more event. */
  lemma DetectEventsSnoc(idxs: seq<nat>, i: nat)
    ensures DetectEvents(idxs + [i]) == DetectEvents(idxs) + [Detect(i)]
  {
  }

  /** The reference run. `detect` and `s0` are the detector and its initial
      tracking state; `now` is the timestamp the clock would give. */
  function ExtractSpec<I, S>(source: Source<I>, stride: int, detect: (S, I) -> Step<S>, s0: S, now: string): Run {
    match source
    case Unopenable => Run(Failure(UnableToOpen), [])
    case Opened(video, props) =>
      var idxs := SampledIndices(|video|, stride);
      match Track(detect, s0, Pick(video, idxs))
      case Tracked(replies, _) =>
        Run(Success(Assemble(RecordsOf(idxs, replies), ReadMetadata(props), now)),
            DetectEvents(idxs) + FinallyEvents)
      case Crashed(cause, k) =>
        Run(Failure(OracleFailed(cause)), DetectEvents(idxs[..k + 1]) + FinallyEvents)
  }

  /** A run whose tracking completes over all sampled frames succeeds with
      the records of its replies. */
  lemma SpecOnCompletion<I, S>(video: seq<I>, props: VideoProps, stride: int, detect: (S, I) -> Step<S>, s0: S, now: string, replies: seq<Reply>, s: S)
    requires Track(detect, s0, Pick(video, SampledIndices(|video|, stride))) == Tracked(replies, s)
    ensures ExtractSpec(Opened(video, props), stride, detect, s0, now) ==
      Run(Success(Assemble(RecordsOf(SampledIndices(|video|, stride), replies), ReadMetadata(props), now)),
          DetectEvents(SampledIndices(|video|, stride)) + FinallyEvents)
  {
  }

  /** A run whose tracking crashes on the last of the first `m` frames'
      sampled positions fails with that exception, having called the
      detector on exactly those positions. */
  lemma SpecOnCrash<I, S>(video: seq<I>, props: VideoProps, stride: int, detect: (S, I) -> Step<S>, s0: S, now: string, m: nat, cause: string, k: nat)
    requires m <= |video| && |SampledIndices(m, stride)| == k + 1
    requires Track(detect, s0, Pick(video, SampledIndices(m, stride))) == Crashed(cause, k)
    ensures ExtractSpec(Opened(video, props), stride, detect, s0, now) ==
      Run(Failure(OracleFailed(cause)), DetectEvents(SampledIndices(m, stride)) + FinallyEvents)
  {
    var all := SampledIndices(|video|, stride);
    var part := SampledIndices(m, stride);
    SampledPrefix(m, |video|, stride);
    TrackPrefixAgree(detect, s0, Pick(video, part), Pick(video, all), k + 1);
    CrashSticks(detect, s0, Pick(video, all), k + 1);
    assert all[..k + 1] == part;
  }

  /** The positions the detector is called on: all sampled positions when
      tracking completes, those up to and including the crash otherwise. */
  function CallsOf<S>(idxs: seq<nat>, t: Tracked<S>): (calls: seq<nat>)
    requires t.Crashed? ==> t.at < |idxs|
    ensures |calls| <= |idxs| && calls == idxs[..|calls|]
    ensures t.Crashed? ==> |calls| == t.at + 1
  {
    if t.Tracked? then idxs else idxs[..t.at + 1]
  }

  /** The log of an opened run is its detector calls followed by the
      `finally` events. */
  lemma OpenedRunLog<I, S>(video: seq<I>, props: VideoProps, stride: int, detect: (S, I) -> Step<S>, s0: S, now: string)
    ensures var idxs := SampledIndices(|video|, stride);
      var t := Track(detect, s0, Pick(video, idxs));
      && ExtractSpec(Opened(video, props), stride, detect, s0, now).log == DetectEvents(CallsOf(idxs, t)) + FinallyEvents
      && (ExtractSpec(Opened(video, props), stride, detect, s0, now).result.Success? <==> t.Tracked?)
  {
  }

  /** Shape of a log made of detector calls followed by the `finally` events. */
  lemma CallLogShape(calls: seq<nat>)
    ensures var log := DetectEvents(calls) + FinallyEvents;
      && |log| == |calls| + 2
      && log[|log| - 2..] == FinallyEvents
      && (forall k :: 0 <= k < |calls| ==> log[k] == Detect(calls[k]))
      && (forall i: nat :: Detect(i) in log <==> i in calls)
      && multiset(log)[ReleaseCapture] == 1
      && multiset(log)[ClosePose] == 1
  {
    var d := DetectEvents(calls);
    var log := d + FinallyEvents;
    assert ReleaseCapture !in d && ClosePose !in d;
    assert multiset(log) == multiset(d) + multiset(FinallyEvents);
    assert log[|log| - 2..] == FinallyEvents;
    forall i: nat
      ensures Detect(i) in log <==> i in calls
    {
      if Detect(i) in log {
        var k :| 0 <= k < |log| && log[k] == Detect(i);
        assert k < |calls|;
      }
    }
  }

  /** Opening failure happens before anything is acquired: no detector call
      and no release. Once the video is open, the decoder is released and the
      detector closed exactly once, after every detector call, whether the
      frames ran out or a detector call raised. */
  lemma ReleasedOnceOnEveryPath<I, S>(source: Source<I>, stride: int, detect: (S, I) -> Step<S>, s0: S, now: string)
    ensures var run := ExtractSpec(source, stride, detect, s0, now);
      && (source.Unopenable? ==> run.result == Failure(UnableToOpen) && run.log == [])
      && (source.Opened? ==>
            && |run.log| >= 2
            && run.log[|run.log| - 2..] == FinallyEvents
            && (forall k :: 0 <= k < |run.log| - 2 ==> run.log[k].Detect?)
            && multiset(run.log)[ReleaseCapture] == 1
            && multiset(run.log)[ClosePose] == 1)
  {
    if source.Opened? {
      var idxs := SampledIndices(|source.frames|, stride);
      OpenedRunLog(source.frames, source.props, stride, detect, s0, now);
      CallLogShape(CallsOf(idxs, Track(detect, s0, Pick(source.frames, idxs))));
    }
  }

  /** In a strictly increasing sequence, the first `m` elements are exactly
      the elements no greater than the `m`-th. */
  lemma IncreasingPrefix(idxs: seq<nat>, m: nat, i: nat)
    requires StrictlyIncreasing(idxs)
    requires 0 < m <= |idxs|
    ensures i in idxs[..m] <==> i in idxs && i <= idxs[m - 1]
  {
    if i in idxs && i <= idxs[m - 1] {
      var k :| 0 <= k < |idxs| && idxs[k] == i;
      assert idxs[..m][k] == i;
    }
  }

  /** The records of a completed run are those of the replies at the sampled positions. */
  lemma OpenedRunFrames<I, S>(video: seq<I>, props: VideoProps, stride: int, detect: (S, I) -> Step<S>, s0: S, now: string)
    ensures var idxs := SampledIndices(|video|, stride);
      var t := Track(detect, s0, Pick(video, idxs));
      var run := ExtractSpec(Opened(video, props), stride, detect, s0, now);
      run.result.Success? ==> t.Tracked? && run.result.value == Assemble(RecordsOf(idxs, t.replies), ReadMetadata(props), now)
  {
  }

  /** The detector is called on frames in strictly increasing order of
      position: frames are never revisited or reordered. */
  lemma OracleCallsInOrder<I, S>(video: seq<I>, props: VideoProps, stride: int, detect: (S, I) -> Step<S>, s0: S, now: string)
    ensures var log := ExtractSpec(Opened(video, props), stride, detect, s0, now).log;
      forall j, k :: 0 <= j < k < |log| && log[j].Detect? && log[k].Detect? ==>
        log[j].frameIndex < log[k].frameIndex
  {
    var idxs := SampledIndices(|video|, stride);
    var t := Track(detect, s0, Pick(video, idxs));
    OpenedRunLog(video, props, stride, detect, s0, now);
    SampledIncreasing(|video|, stride);
    CallsIncreasing(idxs, CallsOf(idxs, t));
  }

  /** On a completed run the detector is called on the frame at position
      `i` exactly when the stride rule keeps `i`. */
  lemma OracleCalledOnSampledFrames<I, S>(video: seq<I>, props: VideoProps, stride: int, detect: (S, I) -> Step<S>, s0: S, now: string)
    ensures var run := ExtractSpec(Opened(video, props), stride, detect, s0, now);
      run.result.Success? ==>
        forall i: nat :: Detect(i) in run.log <==> i < |video| && ShouldProcess(i, stride)
  {
    OpenedRunLog(video, props, stride, detect, s0, now);
    CompletedCallsAreSampled(|video|, stride);
  }

  /** On a run a detector call aborted, the detector was called on the
      sampled positions up to and including the frame whose call raised,
      and that call is the last one before the `finally` events. */
  lemma OracleCallsUpToFailure<I, S>(video: seq<I>, props: VideoProps, stride: int, detect: (S, I) -> Step<S>, s0: S, now: string)
    requires ExtractSpec(Opened(video, props), stride, detect, s0, now).result.Failure?
    ensures var run := ExtractSpec(Opened(video, props), stride, detect, s0, now);
      && |run.log| >= 3
      && run.log[|run.log| - 3].Detect?
      && var last := run.log[|run.log| - 3].frameIndex;
      && last < |video|
      && forall i: nat :: Detect(i) in run.log <==> i <= last && ShouldProcess(i, stride)
  {
    var idxs := SampledIndices(|video|, stride);
    var t := Track(detect, s0, Pick(video, idxs));
    OpenedRunLog(video, props, stride, detect, s0, now);
    CrashedCallsAreSampledPrefix(|video|, stride, t.at);
  }

  /** When tracking completes, the calls are exactly the sampled positions. */
  lemma CompletedCallsAreSampled(n: nat, stride: int)
    ensures var log := DetectEvents(SampledIndices(n, stride)) + FinallyEvents;
      forall i: nat :: Detect(i) in log <==> i < n && ShouldProcess(i, stride)
  {
    CallLogShape(SampledIndices(n, stride));
    forall i: nat
      ensures i in SampledIndices(n, stride) <==> i < n && ShouldProcess(i, stride)
    {
      SampledMembership(n, stride, i);
    }
  }

  /** Detector calls on a prefix of increasing positions happen in increasing order. */
  lemma CallsIncreasing(idxs: seq<nat>, calls: seq<nat>)
    requires StrictlyIncreasing(idxs)
    requires |calls| <= |idxs| && calls == idxs[..|calls|]
    ensures var log := DetectEvents(calls) + FinallyEvents;
      forall j, k :: 0 <= j < k < |log| && log[j].Detect? && log[k].Detect? ==>
        log[j].frameIndex < log[k].frameIndex
  {
    var log := DetectEvents(calls) + FinallyEvents;
    forall j, k | 0 <= j < k < |log| && log[j].Detect? && log[k].Detect?
      ensures log[j].frameIndex < log[k].frameIndex
    {
      assert k < |calls|;
      assert calls[j] == idxs[j] && calls[k] == idxs[k];
    }
  }

  /** The first `at + 1` sampled positions are the sampled positions up to
      the `at`-th one, which is the last entry before the `finally` events. */
  lemma CrashedCallsAreSampledPrefix(n: nat, stride: int, at: nat)
    requires at < |SampledIndices(n, stride)|
    ensures var idxs := SampledIndices(n, stride);
      var log := DetectEvents(idxs[..at + 1]) + FinallyEvents;
      && idxs[at] < n
      && log[|log| - 3] == Detect(idxs[at])
      && forall i: nat :: Detect(i) in log <==> i <= idxs[at] && ShouldProcess(i, stride)
  {
    var idxs := SampledIndices(n, stride);
    var calls := idxs[..at + 1];
    CallLogShape(calls);
    SampledIncreasing(n, stride);
    forall i: nat
      ensures i in calls <==> i <= idxs[at] && ShouldProcess(i, stride)
    {
      IncreasingPrefix(idxs, at + 1, i);
      SampledMembership(n, stride, i);
    }
  }

  /** Every record of a completed run lies at a sampled position of the
      video, and records are in strictly increasing order of position. */
  lemma FramesSortedAndSampled<I, S>(video: seq<I>, props: VideoProps, stride: int, detect: (S, I) -> Step<S>, s0: S, now: string)
    ensures var run := ExtractSpec(Opened(video, props), stride, detect, s0, now);
      run.result.Success? ==>
        var frames := run.result.value.frames;
        && StrictlyIncreasing(FrameIndices(frames))
        && (forall j :: 0 <= j < |frames| ==>
              frames[j].frameIndex < |video| && ShouldProcess(frames[j].frameIndex, stride))
  {
    var idxs := SampledIndices(|video|, stride);
    var t := Track(detect, s0, Pick(video, idxs));
    OpenedRunFrames(video, props, stride, detect, s0, now);
    if t.Tracked? {
      SampledIncreasing(|video|, stride);
      RecordsOfOrdered(idxs, t.replies);
    }
  }

  /** A frame without a detection adds nothing, so a completed run has at
      most one record per sampled position: at most `ceil(F / stride)`
      records for `F` frames and a stride of at least 1. */
  lemma FrameCountAtMostSampled<I, S>(video: seq<I>, props: VideoProps, stride: int, detect: (S, I) -> Step<S>, s0: S, now: string)
    ensures var run := ExtractSpec(Opened(video, props), stride, detect, s0, now);
      run.result.Success? ==>
        && |run.result.value.frames| <= |SampledIndices(|video|, stride)| <= |video|
        && (stride >= 1 ==> |run.result.value.frames| <= CeilDiv(|video|, stride))
  {
    var idxs := SampledIndices(|video|, stride);
    var t := Track(detect, s0, Pick(video, idxs));
    OpenedRunFrames(video, props, stride, detect, s0, now);
    if t.Tracked? && stride >= 1 {
      SampledCount(|video|, stride);
    }
  }

  /** Each record of a completed run is the normalised reply the detector
      gave for the frame at the record's own position in the video: the
      index is a video position, not a count of sampled frames. */
  lemma FrameIndexIsVideoPosition<I, S>(video: seq<I>, props: VideoProps, stride: int, detect: (S, I) -> Step<S>, s0: S, now: string, f: FrameRecord)
    requires ExtractSpec(Opened(video, props), stride, detect, s0, now).result.Success?
    requires f in ExtractSpec(Opened(video, props), stride, detect, s0, now).result.value.frames
    ensures var idxs := SampledIndices(|video|, stride);
      var images := Pick(video, idxs);
      var t := Track(detect, s0, images);
      && t.Tracked?
      && exists k :: 0 <= k < |idxs| && idxs[k] == f.frameIndex && images[k] == video[f.frameIndex]
                     && RecordOf(f.frameIndex, t.replies[k]) == Some(f)
  {
    var idxs := SampledIndices(|video|, stride);
    var images := Pick(video, idxs);
    var t := Track(detect, s0, images);
    OpenedRunFrames(video, props, stride, detect, s0, now);
    assert t.Tracked? && f in RecordsOf(idxs, t.replies);
    RecordsOfMembership(idxs, t.replies, f);
    var k :| 0 <= k < |idxs| && RecordOf(idxs[k], t.replies[k]) == Some(f);
    assert f.frameIndex == idxs[k] && images[k] == video[idxs[k]];
  }

  /** The top-level lists mirror the earliest record, or are empty when no
      frame had a detection; no segmentation mask appears anywhere. */
  lemma MirrorIsEarliestRecord<I, S>(video: seq<I>, props: VideoProps, stride: int, detect: (S, I) -> Step<S>, s0: S, now: string)
    ensures var run := ExtractSpec(Opened(video, props), stride, detect, s0, now);
      run.result.Success? ==>
        var r := run.result.value;
        && r.segmentationMask == None
        && (forall j :: 0 <= j < |r.frames| ==> r.frames[j].segmentationMask == None)
        && (r.frames == [] ==> r.poseLandmarks == [] && r.poseWorldLandmarks == [])
        && (r.frames != [] ==>
              && r.poseLandmarks == r.frames[0].poseLandmarks
              && r.poseWorldLandmarks == r.frames[0].poseWorldLandmarks
              && forall j :: 0 <= j < |r.frames| ==> r.frames[0].frameIndex <= r.frames[j].frameIndex)
  {
    FramesSortedAndSampled(video, props, stride, detect, s0, now);
    var run := ExtractSpec(Opened(video, props), stride, detect, s0, now);
    if run.result.Success? {
      var fs := run.result.value.frames;
      forall j | 0 < j < |fs|
        ensures fs[0].frameIndex <= fs[j].frameIndex
      {
        assert FrameIndices(fs)[0] < FrameIndices(fs)[j];
      }
    }
  }

  /** With a detector that never raises and always reports both lists, the
      run completes with one record per sampled position, in order: frames
      `0..F-1` for a stride of 1, every `stride`-th frame otherwise. */
  lemma EveryFrameDetected<I, S>(video: seq<I>, props: VideoProps, stride: int, detect: (S, I) -> Step<S>, s0: S, now: string)
    requires forall s, x ::
      detect(s, x).Returned? && detect(s, x).reply.imageLandmarks.Some? && detect(s, x).reply.worldLandmarks.Some?
    ensures var run := ExtractSpec(Opened(video, props), stride, detect, s0, now);
      && run.result.Success?
      && FrameIndices(run.result.value.frames) == SampledIndices(|video|, stride)
  {
    var idxs := SampledIndices(|video|, stride);
    var images := Pick(video, idxs);
    var both := (r: Reply) => r.imageLandmarks.Some? && r.worldLandmarks.Some?;
    TrackNeverRaising(detect, s0, images, both);
    RecordsOfAllDetected(idxs, Track(detect, s0, images).replies);
  }

  /** With a detector that never raises and never reports a pose, the run
      completes with no records and empty top-level lists, while the
      metadata still reflects the video's container properties. */
  lemma NoFrameDetected<I, S>(video: seq<I>, props: VideoProps, stride: int, detect: (S, I) -> Step<S>, s0: S, now: string)
    requires forall s, x :: detect(s, x).Returned? && detect(s, x).reply.imageLandmarks.None?
    ensures var run := ExtractSpec(Opened(video, props), stride, detect, s0, now);
      && run.result.Success?
      && run.result.value.frames == []
      && run.result.value.poseLandmarks == [] && run.result.value.poseWorldLandmarks == []
      && run.result.value.frameCount == IntProp(props.frameCount)
      && run.result.value.fps == RealProp(props.fps)
      && run.result.value.width == IntProp(props.width)
      && run.result.value.height == IntProp(props.height)
  {
    var idxs := SampledIndices(|video|, stride);
    var images := Pick(video, idxs);
    var none := (r: Reply) => r.imageLandmarks.None?;
    TrackNeverRaising(detect, s0, images, none);
    RecordsOfNoneDetected(idxs, Track(detect, s0, images).replies);
  }

  /** Ten frames, stride 3, a detector that always finds a pose: records at
      positions 0, 3, 6 and 9. */
  lemma TenFramesStrideThreeRecords<I, S>(video: seq<I>, props: VideoProps, detect: (S, I) -> Step<S>, s0: S, now: string)
    requires |video| == 10
    requires forall s, x ::
      detect(s, x).Returned? && detect(s, x).reply.imageLandmarks.Some? && detect(s, x).reply.worldLandmarks.Some?
    ensures var run := ExtractSpec(Opened(video, props), 3, detect, s0, now);
      run.result.Success? && FrameIndices(run.result.value.frames) == [0, 3, 6, 9]
  {
    EveryFrameDetected(video, props, 3, detect, s0, now);
    TenFramesStrideThree();
  }
}
