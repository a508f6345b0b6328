/**
 * The library's shared constants: the intent-extra keys, the mode strings,
 * the model's input size, and the two enums of the recognition screen.
 */
module Constants {
  const MODEL_INPUT_SIZE: nat := 112
  const MODEL_IS_QUANTIZED: bool := false

  // Input extras of the recognition screen.
  const MODE: string := "mode"
  const FACE_STRING: string := "face embedding"
  const FACE_STRINGS: string := "face embedding list"
  const EXISTING_FACES: string := "existing_faces"

  // Output extras of the recognition screen.
  const SIMILAR_FACES: string := "similar_faces"
  const IMAGE_PATH: string := "image_path"
  const SIMILARITY_THRESHOLD: string := "similarity_threshold"

  const ACTIVITY_FAILED: int := -404

  const ENROLL_MODE: string := "enroll"
  const VERIFY_MODE: string := "verify"

  const ERROR_400: string := "bad request"
  const SUCCESS: string := "success"
  const VERIFICATION_SUCCESSFUL: string := "verification_successful"

  datatype RecognitionMode = ENROLL | VERIFY

  datatype RecognitionState =
    | SEARCHING_FACE
    | FACE_DETECTED
    | RECOGNISING
    | RECOGNISED
    | VERIFIED_SUCCESSFULLY
    | VERIFICATION_FAILED
    | SHOW_ERROR_MESSAGE
}
