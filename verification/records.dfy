/** Per-frame records (`FrameLandmarks` in the schema) and the rule that
    turns detector replies at sampled positions into the `frames` list. */
module Records {
  import opened Wrappers
  import opened Landmarks
  import opened Tracker
  import opened Sampling

  /** One entry of `frames`. `frameIndex` is the frame's zero-based position
      in the video; `segmentationMask` is never filled in. */
  datatype FrameRecord = FrameRecord(
    frameIndex: nat,
    poseLandmarks: seq<Landmark>,
    poseWorldLandmarks: seq<Landmark>,
    segmentationMask: Option<string>)

  /** The record a reply at position `idx` contributes: one built from both
      normalised lists when both are present, nothing otherwise. */
  function RecordOf(idx: nat, reply: Reply): (r: Option<FrameRecord>)
    ensures r.Some? <==> reply.imageLandmarks.Some? && reply.worldLandmarks.Some?
    ensures r.Some? ==> r.value.frameIndex == idx && r.value.segmentationMask == None
  {
    if reply.imageLandmarks.Some? && reply.worldLandmarks.Some? then
      Some(FrameRecord(idx, NormalizeAll(reply.imageLandmarks.value),
                       NormalizeAll(reply.worldLandmarks.value), None))
    else None
  }

  /** A record's two lists are the reply's two lists, point by point
      normalised, in the detector's order. */
  lemma RecordOfContents(idx: nat, reply: Reply)
    requires RecordOf(idx, reply).Some?
    ensures var rec := RecordOf(idx, reply).value;
      && |rec.poseLandmarks| == |reply.imageLandmarks.value|
      && |rec.poseWorldLandmarks| == |reply.worldLandmarks.value|
      && (forall i :: 0 <= i < |reply.imageLandmarks.value| ==>
            rec.poseLandmarks[i] == Normalize(reply.imageLandmarks.value[i]))
      && (forall i :: 0 <= i < |reply.worldLandmarks.value| ==>
            rec.poseWorldLandmarks[i] == Normalize(reply.worldLandmarks.value[i]))
  {
  }

  /** The `frames` list built from the replies at positions `idxs`: each
      reply contributes its record, if any, in order. No placeholder is
      added for a position without a detection. */
  function RecordsOf(idxs: seq<nat>, replies: seq<Reply>): (r: seq<FrameRecord>)
    requires |idxs| == |replies|
    ensures |r| <= |idxs|
    ensures forall j :: 0 <= j < |r| ==> r[j].frameIndex in idxs && r[j].segmentationMask == None
  {
    RecordsPrefix(idxs, replies, |idxs|)
  }

  /** The records of the first `n` replies only. */
  function RecordsPrefix(idxs: seq<nat>, replies: seq<Reply>, n: nat): (r: seq<FrameRecord>)
    requires |idxs| == |replies| && n <= |idxs|
    ensures |r| <= n
    ensures forall j :: 0 <= j < |r| ==> r[j].frameIndex in idxs && r[j].segmentationMask == None
  {
    if n == 0 then []
    else
      RecordsPrefix(idxs, replies, n - 1)
      + (match RecordOf(idxs[n - 1], replies[n - 1])
         case Some(rec) => [rec]
         case None => [])
  }

  /** The records of the first `n` replies depend on nothing beyond them. */
  lemma {:induction false} RecordsPrefixAgree(idxs: seq<nat>, replies: seq<Reply>, idxs': seq<nat>, replies': seq<Reply>, n: nat)
    requires |idxs| == |replies| && n <= |idxs|
    requires |idxs'| == |replies'| && n <= |idxs'|
    requires forall k :: 0 <= k < n ==> idxs[k] == idxs'[k] && replies[k] == replies'[k]
    ensures RecordsPrefix(idxs, replies, n) == RecordsPrefix(idxs', replies', n)
  {
    if n > 0 {
      RecordsPrefixAgree(idxs, replies, idxs', replies', n - 1);
    }
  }

  /** One more reply: its record, if any, goes at the end. */
  lemma RecordsOfSnoc(idxs: seq<nat>, replies: seq<Reply>, i: nat, reply: Reply)
    requires |idxs| == |replies|
    ensures RecordsOf(idxs + [i], replies + [reply]) ==
      RecordsOf(idxs, replies) + (match RecordOf(i, reply) case Some(rec) => [rec] case None => [])
  {
    RecordsPrefixAgree(idxs + [i], replies + [reply], idxs, replies, |idxs|);
  }

  function FrameIndices(frames: seq<FrameRecord>): (r: seq<nat>)
    ensures |r| == |frames|
    ensures forall j :: 0 <= j < |frames| ==> r[j] == frames[j].frameIndex
  {
    seq(|frames|, j requires 0 <= j < |frames| => frames[j].frameIndex)
  }

  /** A record is in the list exactly when it is the record of the reply
      at some sampled position. */
  lemma RecordsOfMembership(idxs: seq<nat>, replies: seq<Reply>, rec: FrameRecord)
    requires |idxs| == |replies|
    ensures rec in RecordsOf(idxs, replies) <==>
      exists k :: 0 <= k < |idxs| && RecordOf(idxs[k], replies[k]) == Some(rec)
  {
    if rec in RecordsOf(idxs, replies) {
      var k := PrefixRecordSource(idxs, replies, rec, |idxs|);
    }
    forall k | 0 <= k < |idxs| && RecordOf(idxs[k], replies[k]) == Some(rec)
      ensures rec in RecordsOf(idxs, replies)
    {
      PrefixRecordKept(idxs, replies, k, |idxs|);
    }
  }

  /** Every record in the list comes from the reply at some position. */
  lemma {:induction false} PrefixRecordSource(idxs: seq<nat>, replies: seq<Reply>, rec: FrameRecord, n: nat) returns (k: nat)
    requires |idxs| == |replies| && n <= |idxs|
    requires rec in RecordsPrefix(idxs, replies, n)
    ensures k < n && RecordOf(idxs[k], replies[k]) == Some(rec)
  {
    var init := RecordsPrefix(idxs, replies, n - 1);
    var last := match RecordOf(idxs[n - 1], replies[n - 1]) case Some(r) => [r] case None => [];
    assert RecordsPrefix(idxs, replies, n) == init + last;
    if rec in init {
      k := PrefixRecordSource(idxs, replies, rec, n - 1);
    } else {
      k := n - 1;
    }
  }

  /** The record of every reply at the first `n` positions is in the list. */
  lemma {:induction false} PrefixRecordKept(idxs: seq<nat>, replies: seq<Reply>, k: nat, n: nat)
    requires |idxs| == |replies| && k < n <= |idxs|
    requires RecordOf(idxs[k], replies[k]).Some?
    ensures RecordOf(idxs[k], replies[k]).value in RecordsPrefix(idxs, replies, n)
  {
    var init := RecordsPrefix(idxs, replies, n - 1);
    var last := match RecordOf(idxs[n - 1], replies[n - 1]) case Some(r) => [r] case None => [];
    assert RecordsPrefix(idxs, replies, n) == init + last;
    if k < n - 1 {
      PrefixRecordKept(idxs, replies, k, n - 1);
    }
  }

  /** Strictly increasing positions give records with strictly increasing
      frame indices. */
  lemma RecordsOfOrdered(idxs: seq<nat>, replies: seq<Reply>)
    requires |idxs| == |replies|
    requires StrictlyIncreasing(idxs)
    ensures StrictlyIncreasing(FrameIndices(RecordsOf(idxs, replies)))
  {
    PrefixOrdered(idxs, replies, |idxs|);
  }

  /** The records of the first `n` replies are in increasing order, and all
      come before the next position. */
  lemma {:induction false} PrefixOrdered(idxs: seq<nat>, replies: seq<Reply>, n: nat)
    requires |idxs| == |replies| && n <= |idxs|
    requires StrictlyIncreasing(idxs)
    ensures StrictlyIncreasing(FrameIndices(RecordsPrefix(idxs, replies, n)))
    ensures n < |idxs| ==> forall j :: 0 <= j < |RecordsPrefix(idxs, replies, n)| ==>
      RecordsPrefix(idxs, replies, n)[j].frameIndex < idxs[n]
  {
    if n > 0 {
      PrefixOrdered(idxs, replies, n - 1);
      var init := RecordsPrefix(idxs, replies, n - 1);
      var r := RecordsPrefix(idxs, replies, n);
      forall j, k | 0 <= j < k < |r|
        ensures r[j].frameIndex < r[k].frameIndex
      {
        if k < |init| {
          assert r[j] == init[j] && r[k] == init[k];
          assert FrameIndices(init)[j] < FrameIndices(init)[k];
        } else {
          assert r[j] == init[j];
          assert r[k].frameIndex == idxs[n - 1];
        }
      }
      if n < |idxs| {
        forall j | 0 <= j < |r|
          ensures r[j].frameIndex < idxs[n]
        {
          if j < |init| {
            assert r[j] == init[j];
          }
        }
      }
    }
  }

  /** When every reply carries both lists, there is one record per position,
      in the same order. */
  lemma RecordsOfAllDetected(idxs: seq<nat>, replies: seq<Reply>)
    requires |idxs| == |replies|
    requires forall k :: 0 <= k < |replies| ==>
      replies[k].imageLandmarks.Some? && replies[k].worldLandmarks.Some?
    ensures FrameIndices(RecordsOf(idxs, replies)) == idxs
  {
    PrefixAllDetected(idxs, replies, |idxs|);
    assert idxs[..|idxs|] == idxs;
  }

  lemma {:induction false} PrefixAllDetected(idxs: seq<nat>, replies: seq<Reply>, n: nat)
    requires |idxs| == |replies| && n <= |idxs|
    requires forall k :: 0 <= k < |replies| ==>
      replies[k].imageLandmarks.Some? && replies[k].worldLandmarks.Some?
    ensures FrameIndices(RecordsPrefix(idxs, replies, n)) == idxs[..n]
  {
    if n > 0 {
      PrefixAllDetected(idxs, replies, n - 1);
      assert RecordOf(idxs[n - 1], replies[n - 1]).Some?;
      var init := RecordsPrefix(idxs, replies, n - 1);
      var r := RecordsPrefix(idxs, replies, n);
      assert r == init + [RecordOf(idxs[n - 1], replies[n - 1]).value];
      assert FrameIndices(r) == FrameIndices(init) + [idxs[n - 1]];
      assert idxs[..n] == idxs[..n - 1] + [idxs[n - 1]];
    }
  }

  /** When no reply carries an image-space list, the list is empty. */
  lemma RecordsOfNoneDetected(idxs: seq<nat>, replies: seq<Reply>)
    requires |idxs| == |replies|
    requires forall k :: 0 <= k < |replies| ==> replies[k].imageLandmarks.None?
    ensures RecordsOf(idxs, replies) == []
  {
    PrefixNoneDetected(idxs, replies, |idxs|);
  }

  lemma {:induction false} PrefixNoneDetected(idxs: seq<nat>, replies: seq<Reply>, n: nat)
    requires |idxs| == |replies| && n <= |idxs|
    requires forall k :: 0 <= k < |replies| ==> replies[k].imageLandmarks.None?
    ensures RecordsPrefix(idxs, replies, n) == []
  {
    if n > 0 {
      PrefixNoneDetected(idxs, replies, n - 1);
    }
  }
}
