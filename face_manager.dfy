/** face_auth_gmail/src/face_manager.py: `generate_encodings`, the gallery
    builder that does not check for duplicate names and has no `try`. */
module FaceManager {
  import opened FaceLibrary
  import opened FileNames
  import opened Galleries

  /** One iteration of the loop: an image with exactly one face is appended,
      any other image is reported and skipped, an unreadable one stops the build. */
  function GenerateStep(g: Gallery, fileName: string, detect: Detector): BuildOutcome
  {
    if IsImage(fileName) then
      var name := Stem(fileName);
      match detect(fileName)
      case LoadError => Aborted(fileName)
      case Loaded(encodings) =>
        if |encodings| == 1 then Saved(Gallery(g.names + [name], g.encodings + [encodings[0]]))
        else Saved(g)
    else Saved(g)
  }

  /** What the build has reached after the given files of the listing. */
  function Generated(files: seq<string>, detect: Detector): BuildOutcome
    decreases |files|
  {
    if files == [] then Saved(Empty)
    else
      match Generated(files[..|files| - 1], detect)
      case Aborted(bad) => Aborted(bad)
      case Saved(g) => GenerateStep(g, files[|files| - 1], detect)
  }

  /** The positions of the eligible images of the listing, in order. */
  ghost function EligiblePositions(files: seq<string>, detect: Detector): seq<nat>
    decreases |files|
  {
    if files == [] then []
    else if Eligible(files[|files| - 1], detect) then EligiblePositions(files[..|files| - 1], detect) + [|files| - 1]
    else EligiblePositions(files[..|files| - 1], detect)
  }

  lemma {:induction false} EligiblePositionsBelow(files: seq<string>, detect: Detector)
    ensures forall k :: 0 <= k < |EligiblePositions(files, detect)| ==> EligiblePositions(files, detect)[k] < |files|
    decreases |files|
  {
    if files != [] {
      EligiblePositionsBelow(files[..|files| - 1], detect);
    }
  }

  /** Every eligible image is kept and nothing else is. */
  lemma {:induction false} EligiblePositionsExact(files: seq<string>, detect: Detector, j: nat)
    requires j < |files|
    ensures j in EligiblePositions(files, detect) <==> Eligible(files[j], detect)
    decreases |files|
  {
    var init := files[..|files| - 1];
    EligiblePositionsBelow(init, detect);
    if j < |init| {
      EligiblePositionsExact(init, detect, j);
      assert init[j] == files[j];
    }
  }

  /** A saved gallery has as many names as encodings, and entry k comes from
      the k-th eligible image of the listing, in listing order. */
  lemma {:induction false} GeneratedSound(files: seq<string>, detect: Detector)
    requires Generated(files, detect).Saved?
    ensures Describes(Generated(files, detect).gallery, files, detect, EligiblePositions(files, detect))
    decreases |files|
  {
    if files != [] {
      var n := |files|;
      var init := files[..n - 1];
      var g := Generated(init, detect).gallery;
      var origin := EligiblePositions(init, detect);
      GeneratedSound(init, detect);
      DescribesExtend(g, files, n - 1, detect, origin);
      if Eligible(files[n - 1], detect) {
        DescribesAppend(g, files, detect, origin, n - 1);
      }
    }
  }

  /** Once the build has stopped at a file, later files change nothing. */
  lemma {:induction false} AbortPersists(files: seq<string>, m: nat, detect: Detector)
    requires m <= |files| && Generated(files[..m], detect).Aborted?
    ensures Generated(files, detect) == Generated(files[..m], detect)
    decreases |files|
  {
    if m < |files| {
      var init := files[..|files| - 1];
      assert files[..m] == init[..m];
      AbortPersists(init, m, detect);
    } else {
      assert files[..m] == files;
    }
  }

  /** Without an unreadable image the build saves a gallery. */
  lemma {:induction false} SavedWhenReadable(files: seq<string>, detect: Detector)
    requires forall j :: 0 <= j < |files| ==> !Unreadable(files[j], detect)
    ensures Generated(files, detect).Saved?
    decreases |files|
  {
    if files != [] {
      var init := files[..|files| - 1];
      assert forall j :: 0 <= j < |init| ==> init[j] == files[j];
      SavedWhenReadable(init, detect);
      assert !Unreadable(files[|files| - 1], detect);
    }
  }

  /** The build stops at the first unreadable image of the listing. */
  lemma {:induction false} AbortsAtFirstUnreadable(files: seq<string>, detect: Detector, j: nat)
    requires j < |files| && Unreadable(files[j], detect)
    requires forall i :: 0 <= i < j ==> !Unreadable(files[i], detect)
    ensures Generated(files, detect) == Aborted(files[j])
  {
    var pre := files[..j];
    assert forall i :: 0 <= i < |pre| ==> pre[i] == files[i];
    SavedWhenReadable(pre, detect);
    assert files[..j + 1][..j] == pre;
    AbortPersists(files, j + 1, detect);
  }

  /** Some unreadable image makes the build stop. */
  lemma {:induction false} StopsOnUnreadable(files: seq<string>, detect: Detector, j: nat)
    requires j < |files| && Unreadable(files[j], detect)
    ensures Generated(files, detect).Aborted?
    decreases j
  {
    if forall i :: 0 <= i < j ==> !Unreadable(files[i], detect) {
      AbortsAtFirstUnreadable(files, detect, j);
    } else {
      var i :| 0 <= i < j && Unreadable(files[i], detect);
      StopsOnUnreadable(files, detect, i);
    }
  }

  /** The build saves a gallery exactly when every image can be read. */
  lemma GeneratedSavedIff(files: seq<string>, detect: Detector)
    ensures Generated(files, detect).Saved? <==> forall j :: 0 <= j < |files| ==> !Unreadable(files[j], detect)
  {
    if forall j :: 0 <= j < |files| ==> !Unreadable(files[j], detect) {
      SavedWhenReadable(files, detect);
    } else {
      var j :| 0 <= j < |files| && Unreadable(files[j], detect);
      StopsOnUnreadable(files, detect, j);
    }
  }

  /** A saved gallery holds every eligible image and nothing else, duplicate
      names included, in listing order, names paired with encodings. */
  lemma GeneratedGallery(files: seq<string>, detect: Detector)
    requires Generated(files, detect).Saved?
    ensures Describes(Generated(files, detect).gallery, files, detect, EligiblePositions(files, detect))
    ensures forall j :: 0 <= j < |files| ==> (j in EligiblePositions(files, detect) <==> Eligible(files[j], detect))
  {
    GeneratedSound(files, detect);
    forall j | 0 <= j < |files|
      ensures j in EligiblePositions(files, detect) <==> Eligible(files[j], detect)
    {
      EligiblePositionsExact(files, detect, j);
    }
  }

  /** Duplicate names are not refused: when two eligible images share a
      name (say "a.jpg" and "a.png"), the saved gallery lists that name
      twice, the earlier file's entry first. */
  lemma KeepsDuplicateNames(files: seq<string>, detect: Detector, i: nat, j: nat)
    requires Generated(files, detect).Saved?
    requires i < j < |files| && Eligible(files[i], detect) && Eligible(files[j], detect)
    ensures var names := Generated(files, detect).gallery.names;
            exists k, l :: 0 <= k < l < |names| && names[k] == Stem(files[i]) && names[l] == Stem(files[j])
  {
    var g := Generated(files, detect).gallery;
    var origin := EligiblePositions(files, detect);
    GeneratedSound(files, detect);
    EligiblePositionsExact(files, detect, i);
    EligiblePositionsExact(files, detect, j);
    var k :| 0 <= k < |origin| && origin[k] == i;
    var l :| 0 <= l < |origin| && origin[l] == j;
    assert k < l && g.names[k] == Stem(files[i]) && g.names[l] == Stem(files[j]);
  }

  /** `generate_encodings`: appends, file by file, the encoding and the name
      of each one-face image to `known_encodings` and `known_names`. */
  method GenerateEncodings(files: seq<string>, detect: Detector) returns (r: BuildOutcome)
    ensures r == Generated(files, detect)
    ensures r.Saved? <==> forall j :: 0 <= j < |files| ==> !Unreadable(files[j], detect)
    ensures r.Saved? ==> |r.gallery.names| == |r.gallery.encodings|
  {
    var knownEncodings: seq<Encoding> := [];
    var knownNames: seq<string> := [];
    for i := 0 to |files|
      invariant Generated(files[..i], detect) == Saved(Gallery(knownNames, knownEncodings))
      invariant |knownNames| == |knownEncodings|
    {
      assert files[..i + 1][..i] == files[..i];
      var fileName := files[i];
      if IsImage(fileName) {
        var name := Stem(fileName);
        var image := detect(fileName);
        if image.LoadError? {
          AbortPersists(files, i + 1, detect);
          GeneratedSavedIff(files, detect);
          return Aborted(fileName);
        }
        var encodings := image.faces;
        if |encodings| == 1 {
          knownEncodings := knownEncodings + [encodings[0]];
          knownNames := knownNames + [name];
        }
      }
    }
    assert files[..|files|] == files;
    r := Saved(Gallery(knownNames, knownEncodings));
    GeneratedSavedIff(files, detect);
  }
}
