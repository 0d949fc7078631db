/** FaceRecognition/task5.py: `build_encodings`, the gallery builder that
    skips duplicate names and has no `try`. */
module Task5 {
  import opened FaceLibrary
  import opened FileNames
  import opened Galleries
  import FaceRecog

  /** One iteration of the loop. An unreadable image raises out of the
      function, so the build stops and nothing is saved. */
  function BuildStep(g: Gallery, file: string, detect: Detector): BuildOutcome
  {
    if !IsImage(file) then Saved(g)
    else
      match detect(file)
      case LoadError => Aborted(file)
      case Loaded(faces) =>
        if |faces| != 1 then Saved(g)
        else
          var name := Stem(file);
          if name in g.names then Saved(g)
          else Saved(Gallery(g.names + [name], g.encodings + [faces[0]]))
  }

  /** What the build has reached after the given files of the listing. */
  function Built(files: seq<string>, detect: Detector): BuildOutcome
    decreases |files|
  {
    if files == [] then Saved(Empty)
    else
      match Built(files[..|files| - 1], detect)
      case Aborted(bad) => Aborted(bad)
      case Saved(g) => BuildStep(g, files[|files| - 1], detect)
  }

  /** Once the build has stopped at a file, later files change nothing. */
  lemma {:induction false} AbortPersists(files: seq<string>, m: nat, detect: Detector)
    requires m <= |files| && Built(files[..m], detect).Aborted?
    ensures Built(files, detect) == Built(files[..m], detect)
    decreases |files|
  {
    if m < |files| {
      var init := files[..|files| - 1];
      assert files[..m] == init[..m];
      AbortPersists(init, m, detect);
    } else {
      assert files[..m] == files;
    }
  }

  /** Without an unreadable image the build is the rebuild of FaceRecog.py:
      the same kept files, in the same order, with the same names. */
  lemma {:induction false} BuiltIsRegenerated(files: seq<string>, detect: Detector)
    requires forall j :: 0 <= j < |files| ==> !Unreadable(files[j], detect)
    ensures Built(files, detect) == Saved(FaceRecog.Regenerated(files, detect))
    decreases |files|
  {
    if files != [] {
      var init := files[..|files| - 1];
      assert forall j :: 0 <= j < |init| ==> init[j] == files[j];
      BuiltIsRegenerated(init, detect);
      assert !Unreadable(files[|files| - 1], detect);
    }
  }

  /** The build stops at the first unreadable image of the listing. */
  lemma {:induction false} AbortsAtFirstUnreadable(files: seq<string>, detect: Detector, j: nat)
    requires j < |files| && Unreadable(files[j], detect)
    requires forall i :: 0 <= i < j ==> !Unreadable(files[i], detect)
    ensures Built(files, detect) == Aborted(files[j])
  {
    var pre := files[..j];
    assert forall i :: 0 <= i < |pre| ==> pre[i] == files[i];
    BuiltIsRegenerated(pre, detect);
    assert files[..j + 1][..j] == pre;
    AbortPersists(files, j + 1, detect);
  }

  /** The build saves a gallery exactly when every image can be read. */
  lemma BuiltSavedIff(files: seq<string>, detect: Detector)
    ensures Built(files, detect).Saved? <==> forall j :: 0 <= j < |files| ==> !Unreadable(files[j], detect)
  {
    if forall j :: 0 <= j < |files| ==> !Unreadable(files[j], detect) {
      BuiltIsRegenerated(files, detect);
    } else {
      var j :| 0 <= j < |files| && Unreadable(files[j], detect);
      FirstUnreadableExists(files, detect, j);
    }
  }

  /** A saved gallery keeps exactly the first eligible image of each name, in
      listing order, with names and encodings paired entry by entry. */
  lemma BuiltGallery(files: seq<string>, detect: Detector)
    requires Built(files, detect).Saved?
    ensures Describes(Built(files, detect).gallery, files, detect, FaceRecog.RegeneratedOrigin(files, detect))
    ensures Distinct(Built(files, detect).gallery.names)
    ensures forall j :: 0 <= j < |files| ==>
              (j in FaceRecog.RegeneratedOrigin(files, detect) <==> FirstOfName(files, j, detect))
  {
    BuiltSavedIff(files, detect);
    BuiltIsRegenerated(files, detect);
    FaceRecog.RegeneratedSound(files, detect);
    FaceRecog.RegeneratedDistinct(files, detect);
    forall j | 0 <= j < |files|
      ensures j in FaceRecog.RegeneratedOrigin(files, detect) <==> FirstOfName(files, j, detect)
    {
      FaceRecog.RegeneratedKeeps(files, detect, j);
    }
  }

  /** Some unreadable image makes the build stop. */
  lemma {:induction false} FirstUnreadableExists(files: seq<string>, detect: Detector, j: nat)
    requires j < |files| && Unreadable(files[j], detect)
    ensures Built(files, detect).Aborted?
    decreases j
  {
    if forall i :: 0 <= i < j ==> !Unreadable(files[i], detect) {
      AbortsAtFirstUnreadable(files, detect, j);
    } else {
      var i :| 0 <= i < j && Unreadable(files[i], detect);
      FirstUnreadableExists(files, detect, i);
    }
  }

  /** `build_encodings`: appends, file by file, the sole face and the name of
      each kept image to `encodings` and `names`. */
  method BuildEncodings(files: seq<string>, detect: Detector) returns (r: BuildOutcome)
    ensures r == Built(files, detect)
    ensures r.Saved? <==> forall j :: 0 <= j < |files| ==> !Unreadable(files[j], detect)
    ensures r.Saved? ==> |r.gallery.names| == |r.gallery.encodings| && Distinct(r.gallery.names)
  {
    var encodings: seq<Encoding> := [];
    var names: seq<string> := [];
    for i := 0 to |files|
      invariant Built(files[..i], detect) == Saved(Gallery(names, encodings))
    {
      assert files[..i + 1][..i] == files[..i];
      var file := files[i];
      if !IsImage(file) {
        continue;
      }
      var image := detect(file);
      if image.LoadError? {
        AbortPersists(files, i + 1, detect);
        BuiltSavedIff(files, detect);
        return Aborted(file);
      }
      var faces := image.faces;
      if |faces| != 1 {
        continue;
      }
      var name := Stem(file);
      if name in names {
        continue;
      }
      encodings := encodings + [faces[0]];
      names := names + [name];
    }
    assert files[..|files|] == files;
    r := Saved(Gallery(names, encodings));
    BuiltSavedIff(files, detect);
    BuiltGallery(files, detect);
  }
}
