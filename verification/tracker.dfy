/** The pose detector as seen by the frame loop. MediaPipe's `Pose` keeps
    tracking state between calls, so it is modelled as a state machine: from
    a tracker state and one image, a call either returns a reply and the next
    state or raises. The colour conversion before each call is part of the
    call. Nothing about the detector's internals is assumed. */
module Tracker {
  import opened Wrappers
  import opened Landmarks

  /** What `pose.process` returns: the image-space and world-space point
      lists, each of which may be absent (`None` in the result object). */
  datatype Reply = Reply(imageLandmarks: Option<seq<RawPoint>>, worldLandmarks: Option<seq<RawPoint>>)

  /** One detector call: a reply with the tracker's next state, or an exception. */
  datatype Step<S> = Returned(next: S, reply: Reply) | Raised(cause: string)

  /** Running the tracker over a sequence of images: every reply in order
      with the final state, or the first exception and the position of the
      image that raised it. */
  datatype Tracked<S> = Tracked(replies: seq<Reply>, state: S) | Crashed(cause: string, at: nat)

  /** Feeds `images` to the detector one at a time, in order, threading
      the tracker state; stops at the first exception. */
  function Track<S, I>(detect: (S, I) -> Step<S>, s0: S, images: seq<I>): (t: Tracked<S>)
    ensures t.Tracked? ==> |t.replies| == |images|
    ensures t.Crashed? ==> t.at < |images|
  {
    TrackPrefix(detect, s0, images, |images|)
  }

  /** Tracking over the first `n` images only. */
  function TrackPrefix<S, I>(detect: (S, I) -> Step<S>, s0: S, images: seq<I>, n: nat): (t: Tracked<S>)
    requires n <= |images|
    ensures t.Tracked? ==> |t.replies| == n
    ensures t.Crashed? ==> t.at < n
  {
    if n == 0 then Tracked([], s0)
    else
      match TrackPrefix(detect, s0, images, n - 1)
      case Crashed(c, k) => Crashed(c, k)
      case Tracked(rs, s) =>
        match detect(s, images[n - 1])
        case Raised(c) => Crashed(c, n - 1)
        case Returned(s', r) => Tracked(rs + [r], s')
  }

  /** Tracking the first `n` images looks at nothing beyond them: two
      sequences that agree on their first `n` images track alike. */
  lemma {:induction false} TrackPrefixAgree<S, I>(detect: (S, I) -> Step<S>, s0: S, a: seq<I>, b: seq<I>, n: nat)
    requires n <= |a| && n <= |b|
    requires forall k :: 0 <= k < n ==> a[k] == b[k]
    ensures TrackPrefix(detect, s0, a, n) == TrackPrefix(detect, s0, b, n)
  {
    if n > 0 {
      TrackPrefixAgree(detect, s0, a, b, n - 1);
    }
  }

  /** One more image: tracking continues from the state the earlier images left. */
  lemma TrackSnoc<S, I>(detect: (S, I) -> Step<S>, s0: S, images: seq<I>, x: I)
    requires Track(detect, s0, images).Tracked?
    ensures var t := Track(detect, s0, images);
      Track(detect, s0, images + [x]) ==
        match detect(t.state, x)
        case Raised(c) => Crashed(c, |images|)
        case Returned(s', r) => Tracked(t.replies + [r], s')
  {
    TrackPrefixAgree(detect, s0, images + [x], images, |images|);
  }

  /** A crash is the first exception: every image before it was processed
      normally, and the call on the image at the crash position raised. */
  lemma CrashIsFirstRaise<S, I>(detect: (S, I) -> Step<S>, s0: S, images: seq<I>)
    requires Track(detect, s0, images).Crashed?
    ensures var t := Track(detect, s0, images);
      && Track(detect, s0, images[..t.at]).Tracked?
      && detect(Track(detect, s0, images[..t.at]).state, images[t.at]) == Raised(t.cause)
  {
    var t := Track(detect, s0, images);
    CrashPrefixIsFirstRaise(detect, s0, images, |images|);
    TrackPrefixAgree(detect, s0, images[..t.at], images, t.at);
  }

  lemma {:induction false} CrashPrefixIsFirstRaise<S, I>(detect: (S, I) -> Step<S>, s0: S, images: seq<I>, n: nat)
    requires n <= |images|
    requires TrackPrefix(detect, s0, images, n).Crashed?
    ensures var t := TrackPrefix(detect, s0, images, n);
      && TrackPrefix(detect, s0, images, t.at).Tracked?
      && detect(TrackPrefix(detect, s0, images, t.at).state, images[t.at]) == Raised(t.cause)
  {
    if TrackPrefix(detect, s0, images, n - 1).Crashed? {
      CrashPrefixIsFirstRaise(detect, s0, images, n - 1);
    }
  }

  /** Once the tracker has crashed on the first `n` images, later images
      change nothing: the exception ends the run. */
  lemma CrashSticks<S, I>(detect: (S, I) -> Step<S>, s0: S, images: seq<I>, n: nat)
    requires n <= |images|
    requires TrackPrefix(detect, s0, images, n).Crashed?
    ensures Track(detect, s0, images) == TrackPrefix(detect, s0, images, n)
  {
    CrashSticksUpTo(detect, s0, images, n, |images|);
  }

  lemma {:induction false} CrashSticksUpTo<S, I>(detect: (S, I) -> Step<S>, s0: S, images: seq<I>, n: nat, m: nat)
    requires n <= m <= |images|
    requires TrackPrefix(detect, s0, images, n).Crashed?
    ensures TrackPrefix(detect, s0, images, m) == TrackPrefix(detect, s0, images, n)
  {
    if m > n {
      CrashSticksUpTo(detect, s0, images, n, m - 1);
    }
  }

  /** A detector that never raises, and whose every reply satisfies `P`,
      tracks any image sequence to completion with replies satisfying `P`. */
  lemma TrackNeverRaising<S, I>(detect: (S, I) -> Step<S>, s0: S, images: seq<I>, P: Reply -> bool)
    requires forall s, x :: detect(s, x).Returned? && P(detect(s, x).reply)
    ensures Track(detect, s0, images).Tracked?
    ensures forall k :: 0 <= k < |images| ==> P(Track(detect, s0, images).replies[k])
  {
    PrefixNeverRaising(detect, s0, images, P, |images|);
  }

  lemma {:induction false} PrefixNeverRaising<S, I>(detect: (S, I) -> Step<S>, s0: S, images: seq<I>, P: Reply -> bool, n: nat)
    requires n <= |images|
    requires forall s, x :: detect(s, x).Returned? && P(detect(s, x).reply)
    ensures TrackPrefix(detect, s0, images, n).Tracked?
    ensures forall k :: 0 <= k < n ==> P(TrackPrefix(detect, s0, images, n).replies[k])
  {
    if n > 0 {
      PrefixNeverRaising(detect, s0, images, P, n - 1);
    }
  }
}
