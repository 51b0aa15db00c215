/** Per-point landmark records and their normalisation (the two
    list-building loops in `extract_world_landmarks`). Coordinates are kept
    as `real` and never computed with: the model copies them. */
module Landmarks {
  import opened Wrappers

  /** One point as the pose detector reports it. `visibility` is `None`
      when the point's message does not carry the field (`HasField` false). */
  datatype RawPoint = RawPoint(x: real, y: real, z: real, visibility: Option<real>)

  /** The canonical landmark of the response (`Landmark` in the schema). */
  datatype Landmark = Landmark(x: real, y: real, z: real, visibility: Option<real>)

  /** Copies x, y and z; copies visibility only when the raw point has it. */
  function Normalize(p: RawPoint): Landmark {
    Landmark(p.x, p.y, p.z,
      if p.visibility.Some? then Some(p.visibility.value) else None)
  }

  /** Normalisation loses nothing: in particular an absent visibility stays
      distinguishable from every reported value, zero included. */
  lemma NormalizeIsLossless(p: RawPoint, q: RawPoint)
    ensures Normalize(p) == Normalize(q) ==> p == q
    ensures Normalize(p).visibility.Some? <==> p.visibility.Some?
  {
  }

  /** The `for lm in ...landmark: list.append(...)` loop: normalise every
      point, appending in order. */
  function NormalizeAll(points: seq<RawPoint>): (r: seq<Landmark>)
    ensures |r| == |points|
    ensures forall i :: 0 <= i < |points| ==> r[i] == Normalize(points[i])
  {
    seq(|points|, i requires 0 <= i < |points| => Normalize(points[i]))
  }
}
