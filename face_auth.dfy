/** face_auth_gmail/src/face_auth.py: the decision made by
    `recognize_face_from_frame`, which takes the first flagged entry and does
    not look at distances. */
module FaceAuth {
  import opened Wrappers
  import opened FaceLibrary

  /** Every face of the frame was compared against all `n` known encodings. */
  predicate Compared(faces: seq<FaceComparison>, n: nat)
  {
    forall i :: 0 <= i < |faces| ==> |faces[i].matches| == n
  }

  /** The decision over the faces of a frame, in detection order: the first
      face with any match names the entry at its lowest flagged position. */
  function Recognize(faces: seq<FaceComparison>, knownNames: seq<string>): (r: Option<string>)
    requires Compared(faces, |knownNames|)
    ensures faces == [] || knownNames == [] ==> r == None
    ensures r.Some? ==> r.value in knownNames
    decreases |faces|
  {
    if faces == [] then None
    else if true in faces[0].matches then
      Some(knownNames[IndexOfTrue(faces[0].matches)])
    else
      Recognize(faces[1..], knownNames)
  }

  /** No face, or no face with any match, gives None, and only those do. */
  lemma {:induction false} RecognizeNone(faces: seq<FaceComparison>, knownNames: seq<string>)
    requires Compared(faces, |knownNames|)
    ensures Recognize(faces, knownNames) == None <==> forall i :: 0 <= i < |faces| ==> true !in faces[i].matches
    decreases |faces|
  {
    if faces != [] {
      RecognizeNone(faces[1..], knownNames);
      assert forall i :: 1 <= i < |faces| ==> faces[i] == faces[1..][i - 1];
    }
  }

  /** The first face with a match decides, at its lowest flagged position;
      that entry is always flagged, and every entry before it is not. */
  lemma {:induction false} RecognizeFirstMatching(faces: seq<FaceComparison>, knownNames: seq<string>, i: nat)
    requires Compared(faces, |knownNames|)
    requires i < |faces| && true in faces[i].matches
    requires forall j :: 0 <= j < i ==> true !in faces[j].matches
    ensures Recognize(faces, knownNames) == Some(knownNames[IndexOfTrue(faces[i].matches)])
    ensures faces[i].matches[IndexOfTrue(faces[i].matches)]
    ensures forall k :: 0 <= k < IndexOfTrue(faces[i].matches) ==> !faces[i].matches[k]
    decreases i
  {
    if i > 0 {
      assert true !in faces[0].matches;
      assert forall j :: 0 <= j < i - 1 ==> faces[1..][j] == faces[j + 1];
      RecognizeFirstMatching(faces[1..], knownNames, i - 1);
    }
  }
}
