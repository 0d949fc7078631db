/** What the scripts receive from the external face library and from numpy:
    encodings, per-file detection results, per-face comparison lists, and
    the `argmin`, `min` and `list.index(True)` searches they apply to them. */
module FaceLibrary {

  /** A face encoding as produced by face_recognition (a 128-dimensional
      vector). The model never looks inside one. */
  type Encoding = seq<real>

  /** What loading one image file and encoding its faces yields: the file
      could not be read, or one encoding per detected face, in scan order. */
  datatype Load = LoadError | Loaded(faces: seq<Encoding>)

  /** For one face found in a frame: `compare_faces` (one flag per known
      encoding) and `face_distance` (one distance per known encoding). */
  datatype FaceComparison = FaceComparison(matches: seq<bool>, distances: seq<real>)

  /** The default `tolerance` of every recogniser in the repository. */
  const DefaultTolerance: real := 0.5

  /** The tolerance the webcam mode of FaceRecog.py passes. */
  const WebcamTolerance: real := 0.45

  /** The default `distance_threshold` of task2.py. */
  const DefaultDistanceThreshold: real := 0.55

  /** Every face of the frame was compared against all `n` known encodings. */
  predicate Aligned(faces: seq<FaceComparison>, n: nat)
  {
    forall i :: 0 <= i < |faces| ==> |faces[i].matches| == n && |faces[i].distances| == n
  }

  /** The flags are the ones face_recognition's `compare_faces` derives from
      the distances: an entry matches when its distance is at most `tolerance`. */
  predicate WithinTolerance(face: FaceComparison, tolerance: real)
  {
    && |face.matches| == |face.distances|
    && forall k :: 0 <= k < |face.matches| ==> (face.matches[k] <==> face.distances[k] <= tolerance)
  }

  /** `np.argmin`: the first index holding the smallest distance. */
  function ArgMin(ds: seq<real>): (k: nat)
    requires |ds| > 0
    ensures k < |ds|
    ensures forall j :: 0 <= j < |ds| ==> ds[k] <= ds[j]
    ensures forall j :: 0 <= j < k ==> ds[k] < ds[j]
    decreases |ds|
  {
    if |ds| == 1 then 0
    else
      var m := ArgMin(ds[..|ds| - 1]);
      if ds[|ds| - 1] < ds[m] then |ds| - 1 else m
  }

  /** `np.min` of a non-empty array of distances. */
  function Min(ds: seq<real>): (m: real)
    requires |ds| > 0
    ensures m in ds
    ensures forall j :: 0 <= j < |ds| ==> m <= ds[j]
  {
    ds[ArgMin(ds)]
  }

  /** `list.index(True)`: the position of the first `True`. */
  function IndexOfTrue(flags: seq<bool>): (k: nat)
    requires true in flags
    ensures k < |flags| && flags[k]
    ensures forall j :: 0 <= j < k ==> !flags[j]
  {
    if flags[0] then 0 else 1 + IndexOfTrue(flags[1..])
  }
}
