/** The gallery the builders produce (the pickled `{"encodings", "names"}`
    record: two parallel lists) and the vocabulary used to state what a
    build keeps. */
module Galleries {
  import opened FaceLibrary
  import opened FileNames

  /** Entry k of `names` and entry k of `encodings` describe the same person. */
  datatype Gallery = Gallery(names: seq<string>, encodings: seq<Encoding>)

  const Empty: Gallery := Gallery([], [])

  /** A builder without a `try` either saves its gallery or is stopped by the
      exception an unreadable image raises, so that nothing is saved. */
  datatype BuildOutcome = Saved(gallery: Gallery) | Aborted(file: string)

  /** `detect` gives, for each file name of the directory, what loading and
      encoding that file yields. */
  type Detector = string -> Load

  /** An image file that shows exactly one face. */
  predicate Eligible(file: string, detect: Detector)
  {
    IsImage(file) && detect(file).Loaded? && |detect(file).faces| == 1
  }

  /** An image file that cannot be loaded. */
  predicate Unreadable(file: string, detect: Detector)
  {
    IsImage(file) && detect(file).LoadError?
  }

  predicate Distinct(names: seq<string>)
  {
    forall i, j :: 0 <= i < j < |names| ==> names[i] != names[j]
  }

  /** Eligible file `j` is the first eligible file of the listing with its name. */
  predicate FirstOfName(files: seq<string>, j: nat, detect: Detector)
    requires j < |files|
  {
    && Eligible(files[j], detect)
    && forall i :: 0 <= i < j && Eligible(files[i], detect) ==> Stem(files[i]) != Stem(files[j])
  }

  /** `g` holds, entry by entry, the files of the listing at the strictly
      increasing positions `origin`: each such file is an eligible image,
      the entry's name is its stem and the entry's encoding its sole face. */
  ghost predicate Describes(g: Gallery, files: seq<string>, detect: Detector, origin: seq<nat>)
  {
    && |origin| == |g.names| == |g.encodings|
    && (forall k :: 0 <= k < |origin| ==>
          && origin[k] < |files|
          && Eligible(files[origin[k]], detect)
          && g.names[k] == Stem(files[origin[k]])
          && g.encodings[k] == detect(files[origin[k]]).faces[0])
    && (forall k, l :: 0 <= k < l < |origin| ==> origin[k] < origin[l])
  }

  /** A description of a prefix of the listing also describes the listing. */
  lemma DescribesExtend(g: Gallery, files: seq<string>, m: nat, detect: Detector, origin: seq<nat>)
    requires m <= |files|
    requires Describes(g, files[..m], detect, origin)
    ensures Describes(g, files, detect, origin)
  {
    forall k | 0 <= k < |origin|
      ensures files[origin[k]] == files[..m][origin[k]]
    {
    }
  }

  /** Appending the entry of an eligible file that comes after every file
      already described keeps the description. */
  lemma DescribesAppend(g: Gallery, files: seq<string>, detect: Detector, origin: seq<nat>, j: nat)
    requires Describes(g, files, detect, origin)
    requires j < |files| && Eligible(files[j], detect)
    requires forall k :: 0 <= k < |origin| ==> origin[k] < j
    ensures Describes(Gallery(g.names + [Stem(files[j])], g.encodings + [detect(files[j]).faces[0]]),
                      files, detect, origin + [j])
  {
  }
}
