/** The video metadata block and the response document assembled after
    the frame loop (`PoseExtractionResponse` in the schema). */
module Response {
  import opened Wrappers
  import opened Landmarks
  import opened Records
  import LandmarkIndex

  /** The four container properties read with `cap.get`; `None` is a
      property the container does not report, which the decoder reads as 0.0. */
  datatype VideoProps = VideoProps(
    frameCount: Option<real>, fps: Option<real>, width: Option<real>, height: Option<real>)

  datatype VideoMetadata = VideoMetadata(frameCount: int, fps: real, width: int, height: int)

  /** `cap.get(prop)`: the reported value, or 0.0 when unreported. */
  function CapGet(p: Option<real>): real {
    p.GetOr(0.0)
  }

  /** Python's `int(x)` on a float: truncation toward zero. */
  function Trunc(x: real): (t: int)
    ensures x >= 0.0 ==> 0 <= t && t as real <= x < t as real + 1.0
    ensures x < 0.0 ==> t <= 0 && t as real - 1.0 < x <= t as real
  {
    if x >= 0.0 then x.Floor else -((-x).Floor)
  }

  /** `int(cap.get(prop)) or 0`. */
  function IntProp(p: Option<real>): (v: int)
    ensures p.None? ==> v == 0
    ensures p.Some? ==> v == Trunc(p.value)
  {
    var n := Trunc(CapGet(p));
    if n != 0 then n else 0
  }

  /** `float(cap.get(prop)) or 0.0`. */
  function RealProp(p: Option<real>): (v: real)
    ensures p.None? ==> v == 0.0
    ensures p.Some? ==> v == p.value
  {
    var x := CapGet(p);
    if x != 0.0 then x else 0.0
  }

  /** The metadata read once before decoding: every property the container
      does not report is 0, never absent; reported counts and sizes are
      truncated toward zero. */
  function ReadMetadata(props: VideoProps): VideoMetadata
  {
    VideoMetadata(IntProp(props.frameCount), RealProp(props.fps),
                  IntProp(props.width), IntProp(props.height))
  }

  datatype Metadata = Metadata(timestamp: string, modelUrl: string, exportVersion: string, source: string)

  const ModelUrl := "https://threejs.org/examples/models/gltf/Michelle.glb"
  const ExportVersion := "1.0"
  const SourceName := "MediaPipe Pose"

  datatype Response = Response(
    metadata: Metadata,
    poseLandmarks: seq<Landmark>,
    poseWorldLandmarks: seq<Landmark>,
    segmentationMask: Option<string>,
    landmarkIndices: map<int, string>,
    frames: seq<FrameRecord>,
    frameCount: int,
    fps: real,
    width: int,
    height: int)

  /** The `first_frame` fallback: the first record's two lists, or two
      empty lists when there is no record. */
  datatype Mirror = Mirror(poseLandmarks: seq<Landmark>, poseWorldLandmarks: seq<Landmark>)

  /** Builds the response from the finished frame list, the metadata read
      before the loop and the current time `now` (an ISO-8601 UTC string the
      caller supplies). The top-level lists mirror the first record. */
  function Assemble(frames: seq<FrameRecord>, meta: VideoMetadata, now: string): (r: Response)
    ensures r.frames == frames
    ensures |frames| > 0 ==>
      r.poseLandmarks == frames[0].poseLandmarks && r.poseWorldLandmarks == frames[0].poseWorldLandmarks
    ensures |frames| == 0 ==> r.poseLandmarks == [] && r.poseWorldLandmarks == []
    ensures r.segmentationMask == None
    ensures r.landmarkIndices == LandmarkIndex.PoseLandmarkIndex
    ensures r.frameCount == meta.frameCount && r.fps == meta.fps
    ensures r.width == meta.width && r.height == meta.height
    ensures r.metadata == Metadata(now, ModelUrl, ExportVersion, SourceName)
  {
    var first :=
      if |frames| > 0 then Mirror(frames[0].poseLandmarks, frames[0].poseWorldLandmarks)
      else Mirror([], []);
    Response(
      Metadata(now, ModelUrl, ExportVersion, SourceName),
      first.poseLandmarks,
      first.poseWorldLandmarks,
      None,
      LandmarkIndex.PoseLandmarkIndex,
      frames,
      meta.frameCount, meta.fps, meta.width, meta.height)
  }
}
