/** FaceRecognition/task2.py: `recognize_with_confidence`, task1's decision
    followed by a strict threshold on a smallest distance. */
module Task2 {
  import opened Wrappers
  import opened FaceLibrary
  import Task1

  /** task1's name, kept only if the smallest distance of the frame's FIRST
      face is strictly below `distanceThreshold`. `if not name` also turns an
      empty name into None. */
  function RecognizeWithConfidence(faces: seq<FaceComparison>, knownNames: seq<string>, distanceThreshold: real)
    : (r: Option<string>)
    requires Aligned(faces, |knownNames|)
    ensures Task1.Recognize(faces, knownNames) == None ==> r == None
    ensures r == None || r == Task1.Recognize(faces, knownNames)
  {
    var name := Task1.Recognize(faces, knownNames);
    if name.None? || name.value == "" then None
    else
      var minDist := Min(faces[0].distances);
      if minDist < distanceThreshold then name else None
  }

  /** The name is kept exactly when task1 found a non-empty name and the first
      face's smallest distance is strictly below the threshold; a distance
      equal to the threshold rejects. */
  lemma ConfidenceIff(faces: seq<FaceComparison>, knownNames: seq<string>, distanceThreshold: real)
    requires Aligned(faces, |knownNames|)
    ensures RecognizeWithConfidence(faces, knownNames, distanceThreshold).Some? <==>
              && Task1.Recognize(faces, knownNames).Some?
              && Task1.Recognize(faces, knownNames).value != ""
              && |faces[0].distances| > 0
              && Min(faces[0].distances) < distanceThreshold
  {
  }

  /** The threshold is checked on the first face even when a later face made
      task1's decision: a far first face vetoes a near second one. */
  lemma ChecksFirstFace()
    ensures var far := FaceComparison([false], [0.9]);
            var near := FaceComparison([true], [0.3]);
            && Task1.Recognize([far, near], ["alice"]) == Some("alice")
            && RecognizeWithConfidence([far, near], ["alice"], DefaultDistanceThreshold) == None
  {
    var far := FaceComparison([false], [0.9]);
    var near := FaceComparison([true], [0.3]);
    assert [far, near][1..] == [near];
  }

  /** The secondary check as evidently intended: on the face that task1's
      decision came from, rather than on the first face of the frame. */
  function RecognizeWithConfidenceOnMatchedFace(faces: seq<FaceComparison>, knownNames: seq<string>, distanceThreshold: real)
    : (r: Option<string>)
    requires Aligned(faces, |knownNames|)
    ensures r == None || r == Task1.Recognize(faces, knownNames)
  {
    Task1.RecognizeByDecidingFace(faces, knownNames);
    match Task1.DecidingFace(faces)
    case None => None
    case Some(i) =>
      var name := knownNames[ArgMin(faces[i].distances)];
      if name == "" then None
      else if Min(faces[i].distances) < distanceThreshold then Some(name) else None
  }

  /** With the check on the deciding face, a name is kept exactly when task1
      found a non-empty name whose own distance, on the face that named it,
      is strictly below the threshold. */
  lemma {:induction false} MatchedFaceConfidenceIff(faces: seq<FaceComparison>, knownNames: seq<string>, distanceThreshold: real)
    requires Aligned(faces, |knownNames|)
    ensures Task1.Recognize(faces, knownNames).Some? ==> Task1.DecidingFace(faces).Some?
    ensures RecognizeWithConfidenceOnMatchedFace(faces, knownNames, distanceThreshold).Some? <==>
              && Task1.Recognize(faces, knownNames).Some?
              && Task1.Recognize(faces, knownNames).value != ""
              && var face := faces[Task1.DecidingFace(faces).value];
                 face.distances[ArgMin(face.distances)] < distanceThreshold
  {
    Task1.RecognizeByDecidingFace(faces, knownNames);
  }

  /** On the frame where the first face vetoes a near second one, the check
      on the deciding face keeps "alice". */
  lemma MatchedFaceKeepsNearMatch()
    ensures var far := FaceComparison([false], [0.9]);
            var near := FaceComparison([true], [0.3]);
            RecognizeWithConfidenceOnMatchedFace([far, near], ["alice"], DefaultDistanceThreshold) == Some("alice")
  {
    var far := FaceComparison([false], [0.9]);
    var near := FaceComparison([true], [0.3]);
    assert [far, near][1..] == [near];
    assert Task1.DecidingFace([near]) == Some(0);
  }
}
