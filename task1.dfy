/** FaceRecognition/task1.py: the decision made by `recognize_face_from_frame`
    in the variant that first asks whether anything matched. */
module Task1 {
  import opened Wrappers
  import opened FaceLibrary

  /** Some known entry is flagged as a match for this face (`True in matches`). */
  predicate AnyMatch(face: FaceComparison)
  {
    true in face.matches
  }

  /** The decision over the faces of a frame, in detection order: the first
      face with any match names the entry at its first smallest distance,
      whether or not that entry is itself flagged. */
  function Recognize(faces: seq<FaceComparison>, knownNames: seq<string>): (r: Option<string>)
    requires Aligned(faces, |knownNames|)
    ensures faces == [] || knownNames == [] ==> r == None
    ensures r.Some? ==> r.value in knownNames
    decreases |faces|
  {
    if faces == [] then None
    else if true in faces[0].matches then
      Some(knownNames[ArgMin(faces[0].distances)])
    else
      Recognize(faces[1..], knownNames)
  }

  /** No face, or no face with any match, gives None, and only those do. */
  lemma {:induction false} RecognizeNone(faces: seq<FaceComparison>, knownNames: seq<string>)
    requires Aligned(faces, |knownNames|)
    ensures Recognize(faces, knownNames) == None <==> forall i :: 0 <= i < |faces| ==> !AnyMatch(faces[i])
    decreases |faces|
  {
    if faces != [] {
      RecognizeNone(faces[1..], knownNames);
      assert forall i :: 1 <= i < |faces| ==> faces[i] == faces[1..][i - 1];
    }
  }

  /** The first face with a match decides; the name returned is the one at
      that face's first smallest distance. */
  lemma {:induction false} RecognizeFirstMatching(faces: seq<FaceComparison>, knownNames: seq<string>, i: nat)
    requires Aligned(faces, |knownNames|)
    requires i < |faces| && AnyMatch(faces[i])
    requires forall j :: 0 <= j < i ==> !AnyMatch(faces[j])
    ensures Recognize(faces, knownNames) == Some(knownNames[ArgMin(faces[i].distances)])
    ensures forall k :: 0 <= k < |knownNames| ==> faces[i].distances[ArgMin(faces[i].distances)] <= faces[i].distances[k]
    decreases i
  {
    if i > 0 {
      assert !AnyMatch(faces[0]);
      assert forall j :: 0 <= j < i - 1 ==> faces[1..][j] == faces[j + 1];
      RecognizeFirstMatching(faces[1..], knownNames, i - 1);
    }
  }

  /** The position of the face that decides: the first face with any match. */
  function DecidingFace(faces: seq<FaceComparison>): (r: Option<nat>)
    ensures r.Some? ==> r.value < |faces| && AnyMatch(faces[r.value])
    ensures r.Some? ==> forall j :: 0 <= j < r.value ==> !AnyMatch(faces[j])
    ensures r.None? ==> forall j :: 0 <= j < |faces| ==> !AnyMatch(faces[j])
    decreases |faces|
  {
    if faces == [] then None
    else if true in faces[0].matches then Some(0)
    else
      match DecidingFace(faces[1..])
      case None => None
      case Some(i) => Some(i + 1)
  }

  /** task1's name is the nearest entry of the deciding face. */
  lemma RecognizeByDecidingFace(faces: seq<FaceComparison>, knownNames: seq<string>)
    requires Aligned(faces, |knownNames|)
    ensures DecidingFace(faces).None? ==> Recognize(faces, knownNames) == None
    ensures DecidingFace(faces).Some? ==>
              Recognize(faces, knownNames) == Some(knownNames[ArgMin(faces[DecidingFace(faces).value].distances)])
  {
    match DecidingFace(faces)
    case None => RecognizeNone(faces, knownNames);
    case Some(i) => RecognizeFirstMatching(faces, knownNames, i);
  }

  /** The name returned need not be a matching entry: with "alice" flagged
      but "bob" nearer, task1 answers "bob". `compare_faces` never produces
      these flags, since it flags an entry exactly when its distance is
      within the tolerance; with such flags the nearest entry is flagged
      whenever any entry is (`Variants.NearestWithinTolerance`). */
  lemma NearestNeedNotMatch()
    ensures var face := FaceComparison([true, false], [0.3, 0.2]);
            && !face.matches[1]
            && Recognize([face], ["alice", "bob"]) == Some("bob")
  {
    var face := FaceComparison([true, false], [0.3, 0.2]);
    assert ArgMin(face.distances) == 1;
  }
}
