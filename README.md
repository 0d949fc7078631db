# Face recognition scripts: gallery building and match decisions

This project models the logic that the FaceRecognition and face_auth_gmail
scripts run around an external face library. There are two parts.

**Gallery building.** A directory listing is walked in order. Image files
(a name ending in `.jpg` or `.png`, ignoring case) that show exactly one
face become gallery entries. An entry is a name, the file name minus its
extension as `os.path.splitext` computes it, paired with that face's
encoding. The gallery is two parallel lists, `names` and `encodings`. There
are three builders, and each is modelled as it is written:

- `regenerate_encodings` (FaceRecog.py) puts each file in a `try`. It skips
  any file that raises and any name that is already taken.
- `build_encodings` (task5.py) also skips taken names. It has no `try`, so an
  unreadable image stops the build and nothing is saved.
- `generate_encodings` (face_manager.py) does not check for duplicate names.
  It also has no `try`.

Each builder is a method with a loop that appends to the two lists. Each
method is proved equal to a specification function over the prefix of the
listing already processed. The lemmas then show, for the resulting gallery:

- the two lists have the same length;
- entry k comes from the k-th kept file, in listing order;
- exactly which files are kept: the first eligible image of each name, or
  every eligible image for face_manager.py;
- names are pairwise distinct where duplicates are skipped;
- where a build stops.

**Match decisions.** Each recogniser gets, per face of a frame, the
library's `compare_faces` flags and `face_distance` distances, one per known
entry. The four variants stay separate. They are recursive functions, with
lemmas that characterise each result completely:

- FaceRecog.py returns the nearest entry only if that entry is flagged.
- task1.py checks whether any entry is flagged, then returns the nearest
  entry.
- face_auth.py returns the first flagged entry.
- task2.py applies task1.py, then a strict secondary threshold.

Further lemmas relate the variants. Suppose the flags are the ones
face_recognition's `compare_faces` computes (distance at most the
tolerance). Then FaceRecog.py and task1.py always agree, while face_auth.py
can still name an entry that is not the nearest.

Inputs from outside the repository's code become data:

- An encoding is an uninspected `seq<real>`.
- The directory listing is a `seq<string>`.
- Loading and encoding a file is a function `detect` from file name to
  `LoadError | Loaded(faces)`.
- The flags and distances are sequences.

Some behaviours of the code differ from what a gallery matcher would be expected to do. The model keeps them:

- One could expect a bad image to be skipped. task5.py and
  face_manager.py have no `try`, so an unreadable image aborts them:
  `BuildOutcome.Aborted`.
- One could expect duplicate names to be rejected. face_manager.py accepts them
  (`FaceManager.KeepsDuplicateNames`).
- One could expect the nearest entry to be taken among the flagged entries
  only. The code takes it over the whole gallery. `Variants.NearestWithinTolerance`
  shows that the two coincide when the flags come from the distances.
- The primary tolerance of `compare_faces` is non-strict (`<=`), while the
  secondary threshold of task2.py is strict (`<`). The flags are inputs
  here, and only `WithinTolerance` records the library's rule.

## Model

| member | source | states |
|---|---|---|
| `FaceLibrary.ArgMin` | FaceRecognition/FaceRecog.py:113 | `np.argmin`: a valid index, its distance is at most every distance, and every earlier distance is strictly larger (the first minimum wins ties) |
| `FaceLibrary.Min` | FaceRecognition/task2.py:17 | `np.min`: an element of the distances and at most every distance |
| `FaceLibrary.IndexOfTrue` | face_auth_gmail/src/face_auth.py:22 | `list.index(True)`: a position holding True, with no True before it |
| `FileNames.SplitExt` | FaceRecognition/FaceRecog.py:68 | `os.path.splitext`: root and extension concatenate to the name; the extension is empty or a dot followed by no dot and no separator; it is non-empty exactly when the final component holds a dot with a non-dot character before it |
| `FileNames.ImageSuffix` | FaceRecognition/FaceRecog.py:62 | a name passing the case-insensitive `.jpg`/`.png` test has a dot fourth from the end and no dot or separator after it |
| `FileNames.StemOfImage` | FaceRecognition/task5.py:6-14 | the stored name of a listed image is the file name minus its 4-character extension, in its original case; if only dots precede the extension, the whole name is kept |
| `FaceRecog.ValidateSingleFace` | FaceRecognition/FaceRecog.py:47-54 | passes exactly when the loaded image has one face; an unreadable image fails with LoadFailed; otherwise it fails reporting the count found, which is not 1 |
| `FaceRecog.RegenerateStepCases` | FaceRecognition/FaceRecog.py:62-79 | one iteration appends the stem and sole face exactly when the file is an eligible image whose name is free; otherwise the gallery is unchanged (errors caught, duplicates skipped) |
| `FaceRecog.RegeneratedSound` | FaceRecognition/FaceRecog.py:59-75 | names and encodings have equal length; entry k is the name and sole encoding of the file at the k-th kept position; positions strictly increase (listing order) |
| `FaceRecog.RegeneratedDistinct` | FaceRecognition/FaceRecog.py:70-72 | the names of the rebuilt gallery are pairwise distinct |
| `FaceRecog.EligibleNameTaken` | FaceRecognition/FaceRecog.py:70-75 | after the rebuild, the name of every eligible image of the listing is present |
| `FaceRecog.NameTaken` | FaceRecognition/FaceRecog.py:70-75 | a name is in the rebuilt gallery iff some eligible image of the listing has it |
| `FaceRecog.RegeneratedKeeps` | FaceRecognition/FaceRecog.py:61-79 | a file is kept iff it is an eligible image and no earlier eligible image has its name; so later duplicates are skipped, and a file skipped for its face count or an error leaves its name free |
| `FaceRecog.RegeneratedExtends` | FaceRecognition/FaceRecog.py:70-75 | the gallery from a prefix of the listing is a prefix of the final gallery (both lists): no entry is overwritten |
| `FaceRecog.RegenerateEncodings` | FaceRecognition/FaceRecog.py:57-82 | the loop's result is the rebuilt gallery of the whole listing, with equal-length lists and distinct names |
| `FaceRecog.Recognize` | FaceRecognition/FaceRecog.py:103-117 | an empty gallery gives None; a returned name is one of the known names |
| `FaceRecog.RecognizeNone` | FaceRecognition/FaceRecog.py:103-117 | None iff no face's nearest entry is flagged, including no face at all, and even when some other entry is flagged |
| `FaceRecog.RecognizeFirstDeciding` | FaceRecognition/FaceRecog.py:106-115 | the first face whose nearest entry is flagged decides: the result is the name at its first minimal-distance index, which is flagged and minimal |
| `Task9.ValidateSingleFace` | FaceRecognition/task9.py:3-11 | succeeds exactly for one face and then returns that face's encoding (the faces are exactly `[it]`); otherwise it fails with LoadFailed or with the face count found |
| `Task9.AgreesWithFaceRecog` | FaceRecognition/task9.py:9-11 | task9's check accepts exactly the images FaceRecog.py's check passes, and fails with the same error |
| `Task5.AbortPersists` | FaceRecognition/task5.py:9 | once the build has stopped at a file, later files do not change the outcome |
| `Task5.BuiltIsRegenerated` | FaceRecognition/task5.py:5-19 | with no unreadable image, build_encodings saves exactly the gallery regenerate_encodings builds |
| `Task5.AbortsAtFirstUnreadable` | FaceRecognition/task5.py:8-10 | the build stops at the first unreadable image of the listing |
| `Task5.FirstUnreadableExists` | FaceRecognition/task5.py:9 | any unreadable image makes the build stop |
| `Task5.BuiltSavedIff` | FaceRecognition/task5.py:4-19 | the build saves a gallery if and only if every listed image is readable |
| `Task5.BuiltGallery` | FaceRecognition/task5.py:4-19 | a saved gallery has distinct names and pairs each entry with the first eligible image of its name, in listing order; an image is kept exactly when it is the first eligible one of its name |
| `Task5.BuildEncodings` | FaceRecognition/task5.py:3-23 | the loop's outcome is the build specification: saved iff every image is readable, with equal-length lists and distinct names |
| `Task6.HandleDuplicate` | FaceRecognition/task6.py:4-8 | True iff no entry of `names` equals `new_name`, False iff some entry does; `names` is only read |
| `Task6.BuildStepAsksHandleDuplicate` | FaceRecognition/task5.py:15-19 | for an eligible image, build_encodings appends it exactly when handle_duplicate accepts its name, and otherwise keeps the gallery |
| `FaceManager.EligiblePositionsExact` | face_auth_gmail/src/face_manager.py:13-22 | a position of the listing is kept iff it holds an image with exactly one face |
| `FaceManager.GeneratedSound` | face_auth_gmail/src/face_manager.py:9-22 | a saved gallery has equal-length lists; entry k is the name and sole encoding of the k-th eligible image, in listing order |
| `FaceManager.AbortPersists` | face_auth_gmail/src/face_manager.py:17 | once the build has stopped at a file, later files do not change the outcome |
| `FaceManager.SavedWhenReadable` | face_auth_gmail/src/face_manager.py:12-25 | with no unreadable image the build saves a gallery: other files are reported and skipped, and the loop continues |
| `FaceManager.AbortsAtFirstUnreadable` | face_auth_gmail/src/face_manager.py:17 | the build stops at the first unreadable image |
| `FaceManager.StopsOnUnreadable` | face_auth_gmail/src/face_manager.py:17 | any unreadable image makes the build stop |
| `FaceManager.GeneratedSavedIff` | face_auth_gmail/src/face_manager.py:12-25 | the build saves a gallery if and only if every listed image is readable |
| `FaceManager.GeneratedGallery` | face_auth_gmail/src/face_manager.py:12-25 | a saved gallery holds every one-face image and nothing else, in listing order, names paired with encodings |
| `FaceManager.KeepsDuplicateNames` | face_auth_gmail/src/face_manager.py:20-22 | two eligible images with the same name (e.g. a.jpg, a.png) both appear, the earlier one first |
| `FaceManager.GenerateEncodings` | face_auth_gmail/src/face_manager.py:8-29 | the loop's outcome is the generate specification: saved iff every image is readable, with equal-length lists |
| `FaceAuth.Recognize` | face_auth_gmail/src/face_auth.py:14-24 | no face or an empty gallery gives None; a returned name is one of the known names |
| `FaceAuth.RecognizeNone` | face_auth_gmail/src/face_auth.py:19-24 | None iff no face has any True flag |
| `FaceAuth.RecognizeFirstMatching` | face_auth_gmail/src/face_auth.py:19-23 | the first face with a True flag decides, returning the name at its lowest True position; that entry is flagged and none before it is |
| `Task1.Recognize` | FaceRecognition/task1.py:19-28 | no face or an empty gallery gives None; a returned name is one of the known names |
| `Task1.RecognizeNone` | FaceRecognition/task1.py:19-28 | None iff no face has any True flag |
| `Task1.RecognizeFirstMatching` | FaceRecognition/task1.py:22-27 | the first face with any True flag decides, returning the name at its first minimal-distance index, whose distance is at most every other |
| `Task1.DecidingFace` | FaceRecognition/task1.py:22-25 | the position of the first face with a True flag, or None when no face has one |
| `Task1.RecognizeByDecidingFace` | FaceRecognition/task1.py:22-28 | task1's result is the nearest name of the deciding face, or None when there is none |
| `Task1.NearestNeedNotMatch` | FaceRecognition/task1.py:25-27 | with "alice" flagged and "bob" nearer but not flagged, task1 returns "bob" |
| `Task2.RecognizeWithConfidence` | FaceRecognition/task2.py:10-18 | None whenever task1 gives None; otherwise either None or exactly task1's name |
| `Task2.ConfidenceIff` | FaceRecognition/task2.py:11-18 | a name is kept iff task1 found a non-empty name and the first face's minimum distance is strictly below the threshold (equality rejects) |
| `Task2.ChecksFirstFace` | FaceRecognition/task2.py:15-18 | a far first face (0.9) vetoes the near second face (0.3) that task1 matched: task1 says "alice", task2 says None |
| `Task2.RecognizeWithConfidenceOnMatchedFace` | FaceRecognition/task2.py:15-18 | corrected check: the result is None or exactly task1's name |
| `Task2.MatchedFaceConfidenceIff` | FaceRecognition/task2.py:15-18 | corrected check: a name is kept iff task1 found a non-empty name whose distance on the face that named it is strictly below the threshold |
| `Task2.MatchedFaceKeepsNearMatch` | FaceRecognition/task2.py:15-18 | on the frame of ChecksFirstFace, the corrected check keeps "alice" |
| `Variants.NearestWithinTolerance` | FaceRecognition/FaceRecog.py:107-114 | with library flags (distance <= tolerance), if any entry is flagged then the nearest is, and it is nearest among the flagged entries too |
| `Variants.FaceRecogAgreesWithTask1` | FaceRecognition/task1.py:22-27 | with library flags, FaceRecog.py's and task1.py's decisions are equal on every frame |
| `Variants.FaceAuthAnswersWhenTask1Does` | face_auth_gmail/src/face_auth.py:19-23 | face_auth.py returns a name iff task1.py does |
| `Variants.DisagreeOnInconsistentFlags` | FaceRecognition/FaceRecog.py:112-117 | with "alice" flagged but "bob" nearer: FaceRecog.py gives None, task1.py "bob", face_auth.py "alice" |
| `Variants.FaceAuthNeedNotBeNearest` | face_auth_gmail/src/face_auth.py:20-23 | with library flags and both entries within 0.5, face_auth.py names "alice" (first flagged) while task1.py and FaceRecog.py name the nearer "bob" |
| `Variants.WebcamToleranceRejects` | FaceRecognition/FaceRecog.py:168-169 | with the webcam tolerance 0.45, an "alice" at distance 0.48 is not flagged and not recognised, while the default 0.5 recognises it |
| `Variants.TwoStageScenario` | FaceRecognition/task2.py:6-18 | the alice/bob scenario with tolerance 0.5: 0.3 is accepted, 0.52 is not recognised, and 0.48 is recognised by task1 but rejected by a threshold of 0.4 |

## Findings

| source | as written | input that shows it | evidently intended | confidence | as-written member | corrected member |
|---|---|---|---|---|---|---|
| FaceRecognition/task2.py:15-18 | the secondary distance check re-encodes the frame and uses `face_encodings(...)[0]`, the first face found, whatever face task1's decision came from | two faces, gallery ["alice"]: the first face has no match at distance 0.9, the second matches at 0.3; task1 names "alice", the check sees 0.9 and returns None | check the distance of the face that produced the name | medium, not executed (wrong only for frames with several faces) | `Task2.ChecksFirstFace` | `Task2.MatchedFaceConfidenceIff` |

## Left out

- External face library: `face_locations`, `face_encodings`, `compare_faces`, `face_distance`, `load_image_file`. Their results are input data (a `Load` per file, a `FaceComparison` per face). Encodings are never inspected, and their 128-element length is not enforced.
- The face count: `validate_single_face` in FaceRecog.py counts face locations and then encodes the image again. The model takes one encoding per detected location, from one detection.
- task2.py recomputes encodings from the frame. The model assumes the same faces come back in the same order. Its `tolerance` only affects the flags, which are input data.
- Camera capture, display, quit keys, landmark drawing, frame resizing and colour conversion. These are the `main` functions of FaceRecog.py and face_auth.py, `draw_landmarks` and task4.py. They are I/O and rendering.
- `webbrowser.open` in face_auth.py: a side effect.
- Pickle persistence: `load_encodings`, `save_encodings`, and the `pickle.dump` calls of task5.py and face_manager.py. This is file I/O. The saved record is the `Gallery` value that a build returns.
- `os.listdir`, `os.path.join`, `os.makedirs`: file-system I/O. The listing is the `files` argument.
- Console messages (`print`) and logging (task3.py): side effects only. Only the face count carried by an error is modelled.
- SHA-256 hashing (task7.py): a wrapper over hashlib.
- argparse CLI handling in FaceRecog.py and task5.py.
- task8.py: a stub with no code.
- Lowercasing covers ASCII letters only. For the `.jpg`/`.png` test this matches `str.lower`. The stored name keeps its original case either way.
- `os.path.splitext` follows its POSIX rules. Windows separators are not modelled, since listed names hold no separators.
- Distances are reals, so NaN distances are not modelled.
- FaceRecog.Recognize, Task1.Recognize, Task2.RecognizeWithConfidence: these require one flag and one distance per known name, as the library returns for a gallery whose two lists have equal length. FaceAuth.Recognize requires the same of the flags only. Galleries whose name list and encoding list differ in length are not modelled. The repository's three builders never save one (`FaceRecog.RegeneratedSound`, `Task5.BuildEncodings`, `FaceManager.GeneratedSound`), and neither does the empty default of `load_encodings`. On such a gallery the source may return a name or raise IndexError, depending on whether the chosen index lies within the name list.
