/** How the four match decisions relate. They differ on flags that do not
    follow from the distances; with the flags face_recognition actually
    computes (distance at most the tolerance), the nearest-entry variants
    coincide, while face_auth.py can still name an entry that is not nearest. */
module Variants {
  import opened Wrappers
  import opened FaceLibrary
  import FaceRecog
  import Task1
  import Task2
  import FaceAuth

  /** With library flags, if any entry matches then the nearest entry
      matches: the first smallest distance over the whole gallery is also the
      first smallest distance among the matching entries. */
  lemma NearestWithinTolerance(face: FaceComparison, tolerance: real)
    requires WithinTolerance(face, tolerance) && true in face.matches
    ensures face.matches[ArgMin(face.distances)]
    ensures forall k :: 0 <= k < |face.matches| && face.matches[k] ==>
              face.distances[ArgMin(face.distances)] <= face.distances[k]
  {
    var k :| 0 <= k < |face.matches| && face.matches[k];
    assert face.distances[ArgMin(face.distances)] <= face.distances[k] <= tolerance;
  }

  /** With library flags, FaceRecog.py and task1.py take the same decision. */
  lemma {:induction false} FaceRecogAgreesWithTask1(faces: seq<FaceComparison>, knownNames: seq<string>, tolerance: real)
    requires Aligned(faces, |knownNames|)
    requires forall i :: 0 <= i < |faces| ==> WithinTolerance(faces[i], tolerance)
    ensures FaceRecog.Recognize(faces, knownNames) == Task1.Recognize(faces, knownNames)
    decreases |faces|
  {
    if faces != [] {
      var face := faces[0];
      if true in face.matches {
        NearestWithinTolerance(face, tolerance);
      } else if |face.distances| > 0 {
        assert !face.matches[ArgMin(face.distances)];
      }
      FaceRecogAgreesWithTask1(faces[1..], knownNames, tolerance);
    }
  }

  /** face_auth.py and task1.py answer for the same frames: both stop at the
      first face with any match, whatever the flags. */
  lemma {:induction false} FaceAuthAnswersWhenTask1Does(faces: seq<FaceComparison>, knownNames: seq<string>)
    requires Aligned(faces, |knownNames|)
    ensures FaceAuth.Recognize(faces, knownNames).Some? <==> Task1.Recognize(faces, knownNames).Some?
    decreases |faces|
  {
    if faces != [] {
      FaceAuthAnswersWhenTask1Does(faces[1..], knownNames);
    }
  }

  /** When flags disagree with the distances ("alice" flagged, "bob" nearer),
      the variants part ways: FaceRecog.py gives None, task1.py "bob",
      face_auth.py "alice". `compare_faces` never produces these flags: with
      flags derived from the distances the first two agree
      (`NearestWithinTolerance`, `FaceRecogAgreesWithTask1`). */
  lemma DisagreeOnInconsistentFlags()
    ensures var faces := [FaceComparison([true, false], [0.3, 0.2])];
            && FaceRecog.Recognize(faces, ["alice", "bob"]) == None
            && Task1.Recognize(faces, ["alice", "bob"]) == Some("bob")
            && FaceAuth.Recognize(faces, ["alice", "bob"]) == Some("alice")
  {
    var face := FaceComparison([true, false], [0.3, 0.2]);
    assert ArgMin(face.distances) == 1;
    assert [face][1..] == [];
  }

  /** Even with library flags, face_auth.py names the first flagged entry
      rather than the nearest one: both entries are within 0.5, "bob" is nearer. */
  lemma FaceAuthNeedNotBeNearest()
    ensures var face := FaceComparison([true, true], [0.4, 0.3]);
            && WithinTolerance(face, DefaultTolerance)
            && FaceAuth.Recognize([face], ["alice", "bob"]) == Some("alice")
            && Task1.Recognize([face], ["alice", "bob"]) == Some("bob")
            && FaceRecog.Recognize([face], ["alice", "bob"]) == Some("bob")
  {
    var face := FaceComparison([true, true], [0.4, 0.3]);
    assert ArgMin(face.distances) == 1;
  }

  /** The webcam mode of FaceRecog.py is stricter than the default: an
      "alice" at distance 0.48 is recognised with tolerance 0.5 and is not
      flagged, hence not recognised, with tolerance 0.45. */
  lemma WebcamToleranceRejects()
    ensures var names := ["alice", "bob"];
            var byDefault := FaceComparison([true, false], [0.48, 0.9]);
            var byWebcam := FaceComparison([false, false], [0.48, 0.9]);
            && WithinTolerance(byDefault, DefaultTolerance)
            && WithinTolerance(byWebcam, WebcamTolerance)
            && FaceRecog.Recognize([byDefault], names) == Some("alice")
            && FaceRecog.Recognize([byWebcam], names) == None
  {
    var byDefault := FaceComparison([true, false], [0.48, 0.9]);
    var byWebcam := FaceComparison([false, false], [0.48, 0.9]);
    assert ArgMin(byDefault.distances) == 0;
    assert ArgMin(byWebcam.distances) == 0;
    assert [byWebcam][1..] == [];
  }

  /** The two-stage decision of task2.py on a gallery of "alice" and "bob"
      with tolerance 0.5: a near "alice" (0.3) is accepted, an "alice" at 0.52
      is not flagged and so not recognised, and an "alice" at 0.48 is
      recognised by task1.py but rejected by a secondary threshold of 0.4. */
  lemma TwoStageScenario()
    ensures var names := ["alice", "bob"];
            var q1 := FaceComparison([true, false], [0.3, 0.9]);
            var q2 := FaceComparison([false, false], [0.52, 0.9]);
            var q3 := FaceComparison([true, false], [0.48, 0.9]);
            && WithinTolerance(q1, DefaultTolerance)
            && WithinTolerance(q2, DefaultTolerance)
            && WithinTolerance(q3, DefaultTolerance)
            && Task2.RecognizeWithConfidence([q1], names, DefaultDistanceThreshold) == Some("alice")
            && Task2.RecognizeWithConfidence([q2], names, DefaultDistanceThreshold) == None
            && Task1.Recognize([q3], names) == Some("alice")
            && Task2.RecognizeWithConfidence([q3], names, 0.4) == None
  {
    var q1 := FaceComparison([true, false], [0.3, 0.9]);
    var q2 := FaceComparison([false, false], [0.52, 0.9]);
    var q3 := FaceComparison([true, false], [0.48, 0.9]);
    assert ArgMin(q1.distances) == 0;
    assert ArgMin(q3.distances) == 0;
    assert [q2][1..] == [];
  }
}
