/** FaceRecognition/task9.py: `validate_single_face`, the variant that
    returns the encoding of the single face. */
module Task9 {
  import opened Wrappers
  import opened FaceLibrary
  import FaceRecog

  /** `validate_single_face`: the encoding of the only face, or an error that
      reports how many faces were found (or that the file could not be read). */
  function ValidateSingleFace(load: Load): (r: Result<Encoding, FaceRecog.ValidationError>)
    ensures r.Success? <==> load.Loaded? && |load.faces| == 1
    ensures r.Success? ==> load == Loaded([r.value])
    ensures load.LoadError? ==> r == Failure(FaceRecog.LoadFailed)
    ensures load.Loaded? && r.Failure? ==> r.error == FaceRecog.FaceCount(|load.faces|) && |load.faces| != 1
  {
    match load
    case LoadError => Failure(FaceRecog.LoadFailed)
    case Loaded(encodings) =>
      if |encodings| != 1 then Failure(FaceRecog.FaceCount(|encodings|))
      else Success(encodings[0])
  }

  /** task9.py and FaceRecog.py accept the same images and refuse the others
      with the same error; only task9.py hands back the encoding. */
  lemma AgreesWithFaceRecog(load: Load)
    ensures ValidateSingleFace(load).Success? <==> FaceRecog.ValidateSingleFace(load).Pass?
    ensures ValidateSingleFace(load).Failure? ==>
              FaceRecog.ValidateSingleFace(load) == Fail(ValidateSingleFace(load).error)
  {
  }
}
