/** The `landmarkIndices` table: slot number to lower-case joint name,
    built by enumerating the detector's landmark taxonomy in declared order. */
module LandmarkIndex {
  import Text

  /** MediaPipe's `PoseLandmark` enumeration, member names in declared order. */
  const PoseLandmarkNames: seq<string> := [
    "NOSE",
    "LEFT_EYE_INNER", "LEFT_EYE", "LEFT_EYE_OUTER",
    "RIGHT_EYE_INNER", "RIGHT_EYE", "RIGHT_EYE_OUTER",
    "LEFT_EAR", "RIGHT_EAR",
    "MOUTH_LEFT", "MOUTH_RIGHT",
    "LEFT_SHOULDER", "RIGHT_SHOULDER",
    "LEFT_ELBOW", "RIGHT_ELBOW",
    "LEFT_WRIST", "RIGHT_WRIST",
    "LEFT_PINKY", "RIGHT_PINKY",
    "LEFT_INDEX", "RIGHT_INDEX",
    "LEFT_THUMB", "RIGHT_THUMB",
    "LEFT_HIP", "RIGHT_HIP",
    "LEFT_KNEE", "RIGHT_KNEE",
    "LEFT_ANKLE", "RIGHT_ANKLE",
    "LEFT_HEEL", "RIGHT_HEEL",
    "LEFT_FOOT_INDEX", "RIGHT_FOOT_INDEX"
  ]

  /** The table every response carries, `{i: name.name.lower() for i, name
      in enumerate(PoseLandmark)}`; it depends on nothing but the taxonomy. */
  const PoseLandmarkIndex: map<int, string> :=
    map i | 0 <= i < |PoseLandmarkNames| :: Text.Lower(PoseLandmarkNames[i])

  /** The table has one entry per taxonomy slot, keyed `0..32`, and every
      value is the lower-cased name, so it holds no upper-case letter. */
  lemma PoseLandmarkIndexShape()
    ensures |PoseLandmarkNames| == 33
    ensures forall i :: i in PoseLandmarkIndex <==> 0 <= i < 33
    ensures forall i :: 0 <= i < 33 ==> PoseLandmarkIndex[i] == Text.Lower(PoseLandmarkNames[i])
    ensures forall i, k :: i in PoseLandmarkIndex && 0 <= k < |PoseLandmarkIndex[i]| ==>
              !Text.IsAsciiUpper(PoseLandmarkIndex[i][k])
  {
  }
}
