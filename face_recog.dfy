/** FaceRecognition/FaceRecog.py: `validate_single_face`, the gallery
    rebuild `regenerate_encodings`, and the decision made by
    `recognize_face_from_frame`. */
module FaceRecog {
  import opened Wrappers
  import opened FaceLibrary
  import opened FileNames
  import opened Galleries

  /** Why an image is refused: it could not be read, or it does not show
      exactly one face (the count is reported). */
  datatype ValidationError = LoadFailed | FaceCount(found: nat)

  /** `validate_single_face`: returns normally exactly when the image shows one
      face, and otherwise raises an error that reports the count found. */
  function ValidateSingleFace(load: Load): (r: Outcome<ValidationError>)
    ensures r.Pass? <==> load.Loaded? && |load.faces| == 1
    ensures load.LoadError? ==> r == Fail(LoadFailed)
    ensures load.Loaded? && r.Fail? ==> r.error == FaceCount(|load.faces|) && r.error.found != 1
  {
    match load
    case LoadError => Fail(LoadFailed)
    case Loaded(faces) => if |faces| != 1 then Fail(FaceCount(|faces|)) else Pass
  }

  // ---------------------------------------------------------------------
  // regenerate_encodings
  // ---------------------------------------------------------------------

  /** One iteration of the rebuild loop. Every error inside the `try`
      (an unreadable file, a wrong face count) is caught and the file skipped. */
  function RegenerateStep(g: Gallery, file: string, detect: Detector): Gallery
  {
    if !IsImage(file) then g
    else
      match ValidateSingleFace(detect(file))
      case Fail(_) => g
      case Pass =>
        var name := Stem(file);
        if name in g.names then g
        else Gallery(g.names + [name], g.encodings + [detect(file).faces[0]])
  }

  /** The gallery the rebuild has produced after the given files of the listing. */
  function Regenerated(files: seq<string>, detect: Detector): Gallery
    decreases |files|
  {
    if files == [] then Empty
    else RegenerateStep(Regenerated(files[..|files| - 1], detect), files[|files| - 1], detect)
  }

  /** The positions in the listing of the files the rebuild keeps. */
  ghost function RegeneratedOrigin(files: seq<string>, detect: Detector): seq<nat>
    decreases |files|
  {
    if files == [] then []
    else
      var init := files[..|files| - 1];
      var file := files[|files| - 1];
      if Eligible(file, detect) && Stem(file) !in Regenerated(init, detect).names
      then RegeneratedOrigin(init, detect) + [|files| - 1]
      else RegeneratedOrigin(init, detect)
  }

  /** A step keeps the gallery unless the file is an eligible image whose name
      is still free, in which case it appends that name and that face. */
  lemma RegenerateStepCases(g: Gallery, file: string, detect: Detector)
    ensures Eligible(file, detect) && Stem(file) !in g.names ==>
              RegenerateStep(g, file, detect)
                == Gallery(g.names + [Stem(file)], g.encodings + [detect(file).faces[0]])
    ensures !(Eligible(file, detect) && Stem(file) !in g.names) ==> RegenerateStep(g, file, detect) == g
  {
  }

  /** The rebuilt gallery has as many names as encodings, and entry k comes
      from the k-th kept file, in listing order. */
  lemma {:induction false} RegeneratedSound(files: seq<string>, detect: Detector)
    ensures Describes(Regenerated(files, detect), files, detect, RegeneratedOrigin(files, detect))
    decreases |files|
  {
    if files != [] {
      var n := |files|;
      var init := files[..n - 1];
      var file := files[n - 1];
      var g := Regenerated(init, detect);
      var origin := RegeneratedOrigin(init, detect);
      RegeneratedSound(init, detect);
      DescribesExtend(g, files, n - 1, detect, origin);
      RegenerateStepCases(g, file, detect);
      if Eligible(file, detect) && Stem(file) !in g.names {
        DescribesAppend(g, files, detect, origin, n - 1);
      }
    }
  }

  /** The names of the rebuilt gallery are pairwise distinct. */
  lemma {:induction false} RegeneratedDistinct(files: seq<string>, detect: Detector)
    ensures Distinct(Regenerated(files, detect).names)
    decreases |files|
  {
    if files != [] {
      var init := files[..|files| - 1];
      RegeneratedDistinct(init, detect);
      RegenerateStepCases(Regenerated(init, detect), files[|files| - 1], detect);
    }
  }

  /** Once a file is processed its name is taken: the name of every eligible
      file of the listing is in the rebuilt gallery. */
  lemma {:induction false} EligibleNameTaken(files: seq<string>, detect: Detector, i: nat)
    requires i < |files| && Eligible(files[i], detect)
    ensures Stem(files[i]) in Regenerated(files, detect).names
    decreases |files|
  {
    var n := |files|;
    var init := files[..n - 1];
    RegenerateStepCases(Regenerated(init, detect), files[n - 1], detect);
    if i < n - 1 {
      assert init[i] == files[i];
      EligibleNameTaken(init, detect, i);
    }
  }

  /** A name is taken in the rebuilt gallery exactly when some eligible file
      of the listing has that name. */
  lemma NameTaken(files: seq<string>, detect: Detector, name: string)
    ensures name in Regenerated(files, detect).names
            <==> exists i :: 0 <= i < |files| && Eligible(files[i], detect) && Stem(files[i]) == name
  {
    var g := Regenerated(files, detect);
    if name in g.names {
      RegeneratedSound(files, detect);
      var origin := RegeneratedOrigin(files, detect);
      var k :| 0 <= k < |g.names| && g.names[k] == name;
      assert Eligible(files[origin[k]], detect) && Stem(files[origin[k]]) == name;
    }
    forall i | 0 <= i < |files| && Eligible(files[i], detect)
      ensures Stem(files[i]) in g.names
    {
      EligibleNameTaken(files, detect, i);
    }
  }

  /** Which files the rebuild keeps: exactly the eligible images whose name
      no earlier eligible image has. So a later duplicate is skipped, while a
      file skipped as unreadable or for its face count leaves its name free. */
  lemma {:induction false} RegeneratedKeeps(files: seq<string>, detect: Detector, j: nat)
    requires j < |files|
    ensures j in RegeneratedOrigin(files, detect) <==> FirstOfName(files, j, detect)
    decreases |files|
  {
    var n := |files|;
    var init := files[..n - 1];
    var file := files[n - 1];
    if j < n - 1 {
      RegeneratedKeeps(init, detect, j);
      assert forall i :: 0 <= i <= j ==> files[i] == init[i];
      assert FirstOfName(files, j, detect) == FirstOfName(init, j, detect);
    } else {
      RegeneratedSound(init, detect);
      var origin := RegeneratedOrigin(init, detect);
      assert n - 1 !in origin by {
        assert forall k :: 0 <= k < |origin| ==> origin[k] < n - 1;
      }
      NameTaken(init, detect, Stem(file));
      assert forall i :: 0 <= i < n - 1 ==> files[i] == init[i];
    }
  }

  /** The rebuild only ever appends: the gallery built from a prefix of the
      listing is a prefix of the final gallery, so no entry is overwritten. */
  lemma {:induction false} RegeneratedExtends(files: seq<string>, m: nat, detect: Detector)
    requires m <= |files|
    ensures Regenerated(files[..m], detect).names <= Regenerated(files, detect).names
    ensures Regenerated(files[..m], detect).encodings <= Regenerated(files, detect).encodings
    decreases |files|
  {
    if m < |files| {
      var init := files[..|files| - 1];
      assert files[..m] == init[..m];
      RegeneratedExtends(init, m, detect);
      RegenerateStepCases(Regenerated(init, detect), files[|files| - 1], detect);
    } else {
      assert files[..m] == files;
    }
  }

  /** `regenerate_encodings`: walks the listing once, appending the encoding
      and the name of each kept file to two parallel lists. */
  method RegenerateEncodings(files: seq<string>, detect: Detector) returns (data: Gallery)
    ensures data == Regenerated(files, detect)
    ensures |data.names| == |data.encodings|
    ensures Distinct(data.names)
  {
    var encodings: seq<Encoding> := [];
    var names: seq<string> := [];
    for i := 0 to |files|
      invariant Gallery(names, encodings) == Regenerated(files[..i], detect)
    {
      assert files[..i + 1][..i] == files[..i];
      var file := files[i];
      if IsImage(file) {
        var load := detect(file);
        match ValidateSingleFace(load)
        case Fail(_) =>
        case Pass =>
          var enc := load.faces[0];
          var name := Stem(file);
          if name in names {
            continue;
          }
          encodings := encodings + [enc];
          names := names + [name];
      }
    }
    assert files[..|files|] == files;
    data := Gallery(names, encodings);
    RegeneratedSound(files, detect);
    RegeneratedDistinct(files, detect);
  }

  // ---------------------------------------------------------------------
  // recognize_face_from_frame (the decision, after detection)
  // ---------------------------------------------------------------------

  /** For one face: the nearest known entry is itself flagged as a match. */
  predicate NearestIsMatch(face: FaceComparison)
    requires |face.matches| == |face.distances|
  {
    |face.distances| > 0 && face.matches[ArgMin(face.distances)]
  }

  /** The decision `recognize_face_from_frame` takes over the faces of a
      frame, in detection order: the first face whose nearest entry is a
      match names that entry. */
  function Recognize(faces: seq<FaceComparison>, knownNames: seq<string>): (r: Option<string>)
    requires Aligned(faces, |knownNames|)
    ensures knownNames == [] ==> r == None
    ensures r.Some? ==> r.value in knownNames
    decreases |faces|
  {
    if faces == [] then None
    else
      var face := faces[0];
      if |face.distances| > 0 && face.matches[ArgMin(face.distances)] then
        Some(knownNames[ArgMin(face.distances)])
      else
        Recognize(faces[1..], knownNames)
  }

  /** No face at all, or no face whose nearest entry matches, gives None,
      and only those do: None even when an entry other than the nearest matched. */
  lemma {:induction false} RecognizeNone(faces: seq<FaceComparison>, knownNames: seq<string>)
    requires Aligned(faces, |knownNames|)
    ensures Recognize(faces, knownNames) == None <==> forall i :: 0 <= i < |faces| ==> !NearestIsMatch(faces[i])
    decreases |faces|
  {
    if faces != [] {
      RecognizeNone(faces[1..], knownNames);
      assert forall i :: 1 <= i < |faces| ==> faces[i] == faces[1..][i - 1];
    }
  }

  /** The first face whose nearest entry matches decides, and the name is the
      one at the first smallest distance for that face. */
  lemma {:induction false} RecognizeFirstDeciding(faces: seq<FaceComparison>, knownNames: seq<string>, i: nat)
    requires Aligned(faces, |knownNames|)
    requires i < |faces| && NearestIsMatch(faces[i])
    requires forall j :: 0 <= j < i ==> !NearestIsMatch(faces[j])
    ensures Recognize(faces, knownNames) == Some(knownNames[ArgMin(faces[i].distances)])
    ensures faces[i].matches[ArgMin(faces[i].distances)]
    ensures forall k :: 0 <= k < |knownNames| ==> faces[i].distances[ArgMin(faces[i].distances)] <= faces[i].distances[k]
    decreases i
  {
    if i > 0 {
      assert !NearestIsMatch(faces[0]);
      assert forall j :: 0 <= j < i - 1 ==> faces[1..][j] == faces[j + 1];
      RecognizeFirstDeciding(faces[1..], knownNames, i - 1);
    }
  }
}
