# Pose extraction backend: a Dafny model

This project models the core of a small video pose-extraction service.

The first part is `extract_world_landmarks`. It opens a video and reads its container metadata. It walks the decoded frames with a running position `idx` and skips the frames the stride rule rejects. It hands each kept frame to the MediaPipe pose detector. When the detector reports both the image-space and the world-space point lists, it appends a record built from the normalised lists. The `finally` block releases the decoder and closes the detector. The function then assembles the response document, whose top-level lists mirror the first record, together with the landmark-name table and the metadata.

The second part is the upload gate of the `/pose/extract` handler. An upload proceeds to extraction when its content type is missing or empty, is a `video/` type, or is `application/octet-stream`. Any other content type falls back to a case-insensitive check of the file name against five video extensions. A rejected upload ends with HTTP 400.

## How the model is built

- `Tracker`: the detector is a state machine `detect: (S, I) -> Step<S>`. From a tracking state and an image, a call returns a reply and the next state, or raises. MediaPipe's `Pose` carries tracking state from frame to frame, and the source feeds the frames to it in order. `Track` runs the detector over a sequence of images and stops at the first exception.
- `Sampling`: the stride rule (`ShouldProcess`) and the sampled positions among the first `n` frames (`SampledIndices`).
- `Landmarks` and `Records`: point normalisation, one frame's record (`RecordOf`), and the record list built from the replies at the sampled positions (`RecordsOf`).
- `Response` and `LandmarkIndex`: metadata with its zero defaults, the response document, the first-record mirror, and the `landmarkIndices` table.
- `Pipeline`: `ExtractSpec` is the whole of `extract_world_landmarks` written as a composition. It samples the positions, picks those frames, tracks them, keeps the records and assembles the response. The `Event` log records every detector call, `cap.release()` and `pose.close()` in order.
- `PoseProcessor`: `ExtractWorldLandmarks` is the frame loop statement by statement: `while true`, `idx`, `continue`, `break`, the early `return` of an exception through the `finally` block. It is proved to return exactly what `ExtractSpec` returns. The proof follows a loop-shaped ghost function `Progress` and shows that each loop stage agrees with the reference (`Agrees`).
- `Upload`: the acceptance predicate, the 400 outcome, and a handler that runs the extraction only after the check passes.

The following are parameters of the model:
- the decoded video, as a sequence of opaque frames together with its container properties;
- the detector and its initial state;
- the timestamp.

## Model

| member | source | states |
|---|---|---|
| PoseProcessor.ExtractWorldLandmarks | pose_processor.py:34-122 | The frame loop returns exactly the reference run: on an unopenable video, the failure with an empty log. Otherwise it returns the assembled response, or the detector's exception, together with the log of every detector call followed by the release and the close. |
| PoseProcessor.ProgressAgrees | pose_processor.py:53-98 | After the loop has looked at the first `n` frames, it agrees with the reference. If it is still running, the detector has seen exactly the sampled frames so far, and the records and log are those of their replies. If it has stopped, tracking the sampled frames up to the failing one crashes there, and the log ends with that call. |
| PoseProcessor.AgreesStep | pose_processor.py:55-98 | One more loop iteration preserves agreement with the reference, on the skip path, the exception path and the reply path. |
| PoseProcessor.AgreesOnSkippedFrame | pose_processor.py:59-61 | A skipped frame adds no sampled position and leaves the loop's state as it was. |
| PoseProcessor.AgreesOnRaise | pose_processor.py:63-64 | An exception on a kept frame is the tracker's crash at the last sampled position, and that call is the last logged. |
| PoseProcessor.AgreesOnReply | pose_processor.py:63-98 | A reply on a kept frame extends the tracked replies, the records (with its record, if any) and the log (with its call). |
| PoseProcessor.FinishedRun | pose_processor.py:55-58 | A loop that reaches the end of the frames ends with the reference's successful response and log. |
| PoseProcessor.StoppedRun | pose_processor.py:99-101 | A loop stopped by an exception ends with the reference's failure and log, after the `finally` events. |
| PoseProcessor.AppendRecord | pose_processor.py:66-96 | The `if` on a reply appends exactly the record of that reply when both lists are present, and nothing otherwise. |
| PoseProcessor.Advance | pose_processor.py:55-98 | A stopped loop stays stopped; a loop only stops on the frame being looked at. |
| Sampling.SampledIndices | pose_processor.py:59-61 | Every sampled position is a frame position that the stride rule keeps, and there are at most as many as frames. |
| Sampling.SampledMembership | pose_processor.py:59-61 | A position is sampled if and only if it is a frame position and `stride <= 1` or it is a multiple of the stride. |
| Sampling.SmallStrideKeepsEveryFrame | pose_processor.py:59 | A stride of 1, 0 or a negative number samples every frame `0..n-1`. |
| Sampling.SampledIncreasing | pose_processor.py:53-61 | Sampled positions come in strictly increasing order. |
| Sampling.SampledPrefix | pose_processor.py:55-61 | Sampling fewer frames gives a prefix of sampling more. |
| Sampling.SampledCount | pose_processor.py:59-61 | For a stride of at least 1, `n` frames give exactly `ceil(n / stride)` sampled positions. |
| Sampling.TenFramesStrideThree | pose_processor.py:59-61 | Ten frames with stride 3 are sampled at 0, 3, 6 and 9. |
| Landmarks.NormalizeIsLossless | pose_processor.py:71-74 | Normalisation is injective and keeps visibility exactly when the raw point has the field. |
| Records.RecordOf | pose_processor.py:66-96 | A frame has a record if and only if both lists are present; the record carries the frame's own position and no segmentation mask. |
| Records.RecordOfContents | pose_processor.py:67-87 | A record's two lists are the reply's lists, normalised point by point, in the same order and of the same length. |
| Records.RecordsOfSnoc | pose_processor.py:89-96 | A further reply appends its record, if any, at the end of the list. |
| Records.RecordsOfMembership | pose_processor.py:66-96 | A record is in the list if and only if it is the record of the reply at some sampled position. |
| Records.RecordsOfOrdered | pose_processor.py:89-98 | Increasing positions give records with strictly increasing frame indices. |
| Records.RecordsOfAllDetected | pose_processor.py:66-96 | When every reply has both lists, there is one record per position, in order. |
| Records.RecordsOfNoneDetected | pose_processor.py:66 | When no reply has an image-space list, there are no records. |
| Tracker.TrackSnoc | pose_processor.py:63-64 | Tracking one more image continues from the state the earlier images left. |
| Tracker.TrackPrefixAgree | pose_processor.py:55-64 | Tracking the first `n` images depends on nothing after them. |
| Tracker.CrashIsFirstRaise | pose_processor.py:64 | A crash is the first exception: the images before it were processed normally, and the crashing call raised. |
| Tracker.CrashSticks | pose_processor.py:54-64 | After a crash on the first `n` images, later images change nothing. |
| Tracker.TrackNeverRaising | pose_processor.py:64 | A detector that never raises tracks every image, and its replies keep any property all its replies have. |
| Response.Trunc | pose_processor.py:38 | Python's `int()` on a float truncates toward zero. |
| Response.IntProp | pose_processor.py:38-41 | An unreported integer property reads as 0; a reported one is truncated toward zero. |
| Response.RealProp | pose_processor.py:39 | An unreported frame rate reads as 0.0; a reported one is kept. |
| Response.Assemble | pose_processor.py:103-122 | The response carries the given frames and metadata, no segmentation mask, and the landmark table. Its top-level lists are the first record's lists, or empty when there is no record. |
| LandmarkIndex.PoseLandmarkIndexShape | pose_processor.py:52 | The table has keys exactly `0..32`, one per taxonomy entry in declared order. Each value is the lower-cased name, so no value holds an upper-case letter. |
| Pipeline.SpecOnCompletion | pose_processor.py:55-58 | When tracking completes over all sampled frames, the reference run succeeds with the records of the replies. |
| Pipeline.SpecOnCrash | pose_processor.py:54-64 | When tracking the sampled frames of a prefix crashes on its last one, the reference run fails with that exception. Its log holds exactly the calls of that prefix. |
| Pipeline.CallsOf | pose_processor.py:55-64 | The calls made are a prefix of the sampled positions, ending at the crash when there is one. |
| Pipeline.OpenedRunLog | pose_processor.py:54-101 | An opened run's log is its detector calls followed by the `finally` events, and the run succeeds if and only if tracking completes. |
| Pipeline.CallLogShape | pose_processor.py:99-101 | A log of calls followed by the `finally` events ends with the release and the close, holds each exactly once, and contains a call at `i` if and only if `i` was called. |
| Pipeline.ReleasedOnceOnEveryPath | pose_processor.py:34-36 | An unopenable video fails before anything is acquired or released. Once opened, the decoder is released and the detector closed exactly once, after all detector calls, on success and on an exception alike. |
| Pipeline.OracleCallsInOrder | pose_processor.py:55-64 | The detector sees frames in strictly increasing order of position. |
| Pipeline.OracleCalledOnSampledFrames | pose_processor.py:59-64 | On success, the detector was called on the frame at `i` if and only if `i` is a frame position kept by the stride rule. |
| Pipeline.OracleCallsUpToFailure | pose_processor.py:54-64 | On an exception, the detector was called exactly on the kept positions up to the failing frame, and that call is the last one before the `finally` events. |
| Pipeline.CompletedCallsAreSampled | pose_processor.py:59-64 | The calls of a completed run are exactly the stride rule's positions. |
| Pipeline.CallsIncreasing | pose_processor.py:55-64 | Calls on a prefix of increasing positions are logged in increasing order. |
| Pipeline.CrashedCallsAreSampledPrefix | pose_processor.py:59-64 | The calls up to a crash are exactly the kept positions up to the crashing one, which is the last call logged. |
| Pipeline.FramesSortedAndSampled | pose_processor.py:59-61 | Record frame indices are strictly increasing, and each one is a frame position kept by the stride rule. |
| Pipeline.FrameCountAtMostSampled | pose_processor.py:66 | There are at most as many records as sampled positions, hence at most `ceil(F / stride)` for a stride of at least 1. |
| Pipeline.FrameIndexIsVideoPosition | pose_processor.py:91 | Each record comes from the sampled slot whose video position equals its `frame_index`: the reply for that very frame, normalised. So `frame_index` is a position in the video, not a count of sampled frames. |
| Pipeline.MirrorIsEarliestRecord | pose_processor.py:103-115 | The top-level lists are the earliest record's lists, or empty when there are no records. No segmentation mask appears anywhere. |
| Pipeline.EveryFrameDetected | pose_processor.py:59-98 | A detector that always finds a pose yields one record per sampled position, in order. |
| Pipeline.NoFrameDetected | pose_processor.py:103-122 | A detector that never finds a pose yields no records and empty mirrors, while the metadata still reflects the container's properties. |
| Pipeline.TenFramesStrideThreeRecords | pose_processor.py:59-98 | Ten frames, stride 3 and a detector that always finds a pose give records at 0, 3, 6 and 9. |
| Text.LowerIdempotent | main.py:33 | Lowering a lowered string changes nothing. |
| Text.EndsWithIffConcat | main.py:35 | `endswith` holds if and only if the string is some string followed by the suffix. |
| Upload.CheckedName | main.py:33 | A missing file name is checked as the empty string; a present one as its lower-case form. |
| Upload.CheckUpload | main.py:28-38 | The check passes if and only if the upload is accepted; otherwise it fails with status 400 and "Please upload a video file.". |
| Upload.HandleUpload | main.py:28-47 | A rejected upload ends with the 400 error and no extraction; an accepted one returns the extraction's run. |
| Upload.NoContentTypeAccepted | main.py:28 | A missing or empty content type accepts any upload, whatever its name. |
| Upload.DeclaredVideoAccepted | main.py:29-31 | Any `video/` content type, or exactly `application/octet-stream`, accepts the upload whatever its name. |
| Upload.OtherTypeDecidedByExtension | main.py:31-35 | Any other content type accepts the upload if and only if the lower-cased name is some string followed by one of `.mp4`, `.mov`, `.avi`, `.mkv`, `.webm`. |
| Upload.ExtensionIgnoresCase | main.py:33 | A name and its lower-case form are accepted alike. |
| Upload.MissingNameRejected | main.py:33-38 | When the content type does not decide, a missing or empty name is rejected with the 400 error. |
| Upload.UpperCaseExtensionAccepted | main.py:33-35 | `CLIP.MP4` under `text/plain` is accepted. |
| Upload.TextFileRejected | main.py:29-38 | `notes.txt` under `text/plain` is rejected. |
| Upload.KelvinSignExtensionAccepted | main.py:33-35 | A name ending in `.m` KELVIN SIGN `v` lowers to `.mkv` and is accepted. |

## Left out

- OpenCV decoding (`cv2.VideoCapture`, `cap.read`, `cap.get`) is foreign code. The video is a finite sequence of opaque frames with four optional container properties. `cap.read()` failing is the end of the sequence.
- The colour conversion `cv2.cvtColor` and MediaPipe's detector internals are foreign code. Both are folded into the abstract detector `detect`. Landmark coordinates are `real` values and are only copied.
- The detector's constructor options (`static_image_mode`, `model_complexity`, the confidence thresholds) are not modelled. They only tune the foreign detector. A failure of the `Pose(...)` constructor is not modelled either.
- `float()` conversions of coordinates, and NaN or infinite values, are left out, because no arithmetic is done on coordinates.
- The timestamp `datetime.now(timezone.utc).isoformat()` is a clock read. It is the parameter `now`.
- The FastAPI routing, CORS, temporary-file copy and deletion, and the HTTP 500 wrapping of extraction errors (main.py:9-23, 40-56) are transport and I/O. `HandleUpload` returns the extraction's run as it is.
- `_persist_result`, `health` and the uvicorn entry point (main.py:59-85) are not part of this model. They are disk or runtime side effects outside the extraction.
- `models.py` only declares the response schema. Its shape is followed by the `FrameRecord` and `Response` datatypes.
- Text.Lower: implements Python's `str.lower()` only for ASCII `A`-`Z` and U+212A KELVIN SIGN. No other character's lower-case form ends in an ASCII letter, so the extension decision is exact, but other characters are kept unchanged rather than lowered.
- PoseProcessor.Advance: its contract only says how the loop stops. What it computes is stated by `AgreesStep` and `ProgressAgrees`.
- Behaviour of the code that a reader might not expect:
  - A video that cannot be opened raises before the detector is created and before the `try`. Nothing is released on that path, so the log is empty.
  - A reply with only one of the two lists adds no record, just like a reply with neither.
  - `int(...) or 0` and `float(...) or 0.0` turn 0 into 0, so the `or` changes nothing. The zero defaults come from `cap.get` answering 0.0 for a property the container does not report.
