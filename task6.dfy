/** FaceRecognition/task6.py: `handle_duplicate`, the membership test that
    build_encodings performs inline. */
module Task6 {
  import opened FileNames
  import opened Galleries
  import Task5

  /** `handle_duplicate`: True when `newName` may be added, False (with a
      warning) when it is already taken. It only reads `names`. */
  function HandleDuplicate(names: seq<string>, newName: string): (accepted: bool)
    ensures accepted <==> forall k :: 0 <= k < |names| ==> names[k] != newName
    ensures !accepted <==> exists k :: 0 <= k < |names| && names[k] == newName
  {
    if newName in names then false else true
  }

  /** For an eligible image, build_encodings appends it exactly when
      handle_duplicate would accept its name, and otherwise keeps the gallery. */
  lemma {:induction false} BuildStepAsksHandleDuplicate(g: Gallery, file: string, detect: Detector)
    requires Eligible(file, detect)
    ensures HandleDuplicate(g.names, Stem(file)) ==>
              Task5.BuildStep(g, file, detect)
                == Saved(Gallery(g.names + [Stem(file)], g.encodings + [detect(file).faces[0]]))
    ensures !HandleDuplicate(g.names, Stem(file)) ==> Task5.BuildStep(g, file, detect) == Saved(g)
  {
    if HandleDuplicate(g.names, Stem(file)) {
      assert Stem(file) !in g.names;
    }
  }
}
