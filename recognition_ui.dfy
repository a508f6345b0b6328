/**
 * The recognition screen's contract with its caller: which intent extras it
 * needs, the defaults it falls back to, when its confirm button is enabled,
 * and what it puts in the result intent when it closes.
 */
module RecognitionScreen {
  import opened Wrappers
  import opened Constants
  import opened Faces

  const RESULT_OK: int := -1
  const DEFAULT_SIMILARITY_THRESHOLD: real := 0.65

  const ENROLL_NEEDS_LIST: string := "face strings are required to detect duplicates. It could be an empty string"
  const VERIFY_NEEDS_FACE: string :=
    "A face string is required to do verification. Need to compare what's detected to something"

  /** A value in the result intent. */
  datatype ExtraValue = Text(text: string) | Flag(flag: bool) | FaceList(faces: seq<Face>)

  /** The extras the caller's intent may carry; a missing one is `None`. */
  datatype IntentExtras = IntentExtras(
    mode: Option<string>,
    faceEmbedding: Option<string>,
    faceEmbeddings: Option<seq<string>>,
    similarityThreshold: Option<real>)

  /** The screen's state as far as its result is concerned; `recMode` is `None` until it is initialised. */
  datatype Screen = Screen(
    intentResult: map<string, ExtraValue>,
    recMode: Option<string>,
    faceEmbeddings: seq<string>,
    similarityThreshold: real,
    resultCode: Option<int>,
    finished: bool)

  /** The request error of `onStart`, if any: enroll needs the list of stored faces, verify the stored face. */
  function ValidationError(extras: IntentExtras): (e: Option<string>)
    ensures e == Some(ENROLL_NEEDS_LIST) <==> extras.mode == Some(ENROLL_MODE) && extras.faceEmbeddings.None?
    ensures e == Some(VERIFY_NEEDS_FACE) <==>
      extras.mode == Some(VERIFY_MODE) && extras.faceEmbedding.None?
    ensures e.None? <==>
      !(extras.mode == Some(ENROLL_MODE) && extras.faceEmbeddings.None?) &&
      !(extras.mode == Some(VERIFY_MODE) && extras.faceEmbedding.None?)
  {
    if extras.mode == Some(ENROLL_MODE) && extras.faceEmbeddings.None? then Some(ENROLL_NEEDS_LIST)
    else if extras.mode == Some(VERIFY_MODE) && extras.faceEmbedding.None? then Some(VERIFY_NEEDS_FACE)
    else None
  }

  /** `closeActivity`'s result: the mode is attached only once `recMode` has been initialised. */
  function Closed(s: Screen, activityResult: int): (c: Screen)
    ensures c.resultCode == Some(activityResult) && c.finished
    ensures c.recMode == s.recMode && c.faceEmbeddings == s.faceEmbeddings
    ensures c.similarityThreshold == s.similarityThreshold
  {
    var result := if s.recMode.Some? then s.intentResult[MODE := Text(s.recMode.value)] else s.intentResult;
    s.(intentResult := result, resultCode := Some(activityResult), finished := true)
  }

  /**
   * `onStart`, lines 107 to 124 and the mode assignment: a failed check puts
   * the error and closes, but does not return, so the defaults and the mode
   * are still set afterwards.
   */
  function Started(s: Screen, extras: IntentExtras): Screen
  {
    var checked := match ValidationError(extras)
      case Some(message) => Closed(s.(intentResult := s.intentResult[ERROR_400 := Text(message)]), RESULT_OK)
      case None => s;
    var configured := checked.(faceEmbeddings := extras.faceEmbeddings.GetOr([]),
                               similarityThreshold := extras.similarityThreshold.GetOr(DEFAULT_SIMILARITY_THRESHOLD));
    if extras.mode.Some? then configured.(recMode := extras.mode) else configured
  }

  /** The confirm button is enabled once verification succeeded or the officer overturned a failure. */
  predicate ConfirmEnabled(state: RecognitionState, overturned: bool)
  {
    state == VERIFIED_SUCCESSFULLY || overturned
  }

  /** Confirming always reports a successful verification, then closes. */
  function Confirmed(s: Screen): Screen
  {
    Closed(s.(intentResult := s.intentResult[VERIFICATION_SUCCESSFUL := Flag(true)]), RESULT_OK)
  }

  /** `onFaceRecognised`: the face text, the image path and the similar faces, then close with `RESULT_OK`. */
  function Recognised(s: Screen, faceString: string, similarFaces: seq<Face>, imagePath: string): Screen
  {
    var result := s.intentResult[FACE_STRING := Text(faceString)][IMAGE_PATH := Text(imagePath)]
                                [SIMILAR_FACES := FaceList(similarFaces)];
    Closed(s.(intentResult := result), RESULT_OK)
  }

  /** Closing attaches the mode exactly when it has been initialised, and touches no other key. */
  lemma ClosedAttachesModeIfKnown(s: Screen, activityResult: int)
    ensures var c := Closed(s, activityResult);
      && (s.recMode.Some? ==> MODE in c.intentResult && c.intentResult[MODE] == Text(s.recMode.value))
      && (s.recMode.None? ==> c.intentResult == s.intentResult)
      && (forall k :: k != MODE ==> (k in c.intentResult <==> k in s.intentResult))
      && (forall k :: k != MODE && k in s.intentResult ==> c.intentResult[k] == s.intentResult[k])
  {
  }

  /**
   * Enroll mode without the list of stored faces: the result carries the
   * request error and the screen closes with `RESULT_OK`; since `recMode`
   * is only set after the check, a first start closes without the mode.
   * The defaults are still applied.
   */
  lemma EnrollWithoutListFails(s: Screen, extras: IntentExtras)
    requires extras.mode == Some(ENROLL_MODE) && extras.faceEmbeddings.None?
    ensures var t := Started(s, extras);
      && ERROR_400 in t.intentResult && t.intentResult[ERROR_400] == Text(ENROLL_NEEDS_LIST)
      && t.finished && t.resultCode == Some(RESULT_OK)
      && (s.recMode.None? && MODE !in s.intentResult ==> MODE !in t.intentResult)
      && t.recMode == Some(ENROLL_MODE)
      && t.faceEmbeddings == []
      && t.similarityThreshold == extras.similarityThreshold.GetOr(DEFAULT_SIMILARITY_THRESHOLD)
  {
  }

  /** Verify mode without the stored face: the request error, and the screen closes. */
  lemma VerifyWithoutFaceFails(s: Screen, extras: IntentExtras)
    requires extras.mode == Some(VERIFY_MODE) && extras.faceEmbedding.None?
    ensures var t := Started(s, extras);
      && ERROR_400 in t.intentResult && t.intentResult[ERROR_400] == Text(VERIFY_NEEDS_FACE)
      && t.finished && t.resultCode == Some(RESULT_OK)
      && (s.recMode.None? && MODE !in s.intentResult ==> MODE !in t.intentResult)
      && t.recMode == Some(VERIFY_MODE)
      && t.similarityThreshold == extras.similarityThreshold.GetOr(DEFAULT_SIMILARITY_THRESHOLD)
  {
  }

  /**
   * A valid start changes nothing in the result and does not close; a
   * missing list defaults to empty and a missing threshold to 0.65.
   */
  lemma ValidStartKeepsResult(s: Screen, extras: IntentExtras)
    requires ValidationError(extras).None?
    ensures var t := Started(s, extras);
      && t.intentResult == s.intentResult && t.finished == s.finished && t.resultCode == s.resultCode
      && (extras.faceEmbeddings.None? ==> t.faceEmbeddings == [])
      && (extras.faceEmbeddings.Some? ==> t.faceEmbeddings == extras.faceEmbeddings.value)
      && (extras.similarityThreshold.None? ==> t.similarityThreshold == 0.65)
      && (extras.similarityThreshold.Some? ==> t.similarityThreshold == extras.similarityThreshold.value)
      && t.recMode == (if extras.mode.Some? then extras.mode else s.recMode)
  {
  }

  /** Confirming reports success even when the verification failed and was overturned, and attaches the mode once known. */
  lemma ConfirmReportsSuccess(s: Screen)
    requires s.recMode.Some?
    ensures var t := Confirmed(s);
      && t.intentResult[VERIFICATION_SUCCESSFUL] == Flag(true)
      && t.intentResult[MODE] == Text(s.recMode.value)
      && t.resultCode == Some(RESULT_OK) && t.finished
  {
  }

  /** A recognised face hands back its text, the image path and the similar faces, and closes with `RESULT_OK`. */
  lemma RecognisedResult(s: Screen, faceString: string, similarFaces: seq<Face>, imagePath: string)
    ensures var t := Recognised(s, faceString, similarFaces, imagePath);
      && t.intentResult[FACE_STRING] == Text(faceString)
      && t.intentResult[IMAGE_PATH] == Text(imagePath)
      && t.intentResult[SIMILAR_FACES] == FaceList(similarFaces)
      && t.resultCode == Some(RESULT_OK) && t.finished
  {
  }

  /** The screen, with the fields its result depends on. */
  class RecognitionActivity {
    var intentResult: map<string, ExtraValue>
    var recMode: Option<string>
    var faceEmbeddings: seq<string>
    var similarityThreshold: real
    var resultCode: Option<int>
    var finished: bool

    function Snapshot(): Screen
      reads this
    {
      Screen(intentResult, recMode, faceEmbeddings, similarityThreshold, resultCode, finished)
    }

    constructor ()
      ensures Snapshot() == Screen(map[], None, [], 0.0, None, false)
    {
      intentResult := map[];
      recMode := None;
      faceEmbeddings := [];
      similarityThreshold := 0.0;
      resultCode := None;
      finished := false;
    }

    method CloseActivity(activityResult: int)
      modifies this
      ensures Snapshot() == Closed(old(Snapshot()), activityResult)
    {
      if recMode.Some? {
        intentResult := intentResult[MODE := Text(recMode.value)];
      }
      resultCode := Some(activityResult);
      finished := true;
    }

    method OnStart(extras: IntentExtras)
      modifies this
      ensures Snapshot() == Started(old(Snapshot()), extras)
    {
      var mode := extras.mode;
      if mode == Some(ENROLL_MODE) && extras.faceEmbeddings.None? {
        intentResult := intentResult[ERROR_400 := Text(ENROLL_NEEDS_LIST)];
        CloseActivity(RESULT_OK);
      } else if mode == Some(VERIFY_MODE) && extras.faceEmbedding.None? {
        intentResult := intentResult[ERROR_400 := Text(VERIFY_NEEDS_FACE)];
        CloseActivity(RESULT_OK);
      }
      faceEmbeddings := extras.faceEmbeddings.GetOr([]);
      similarityThreshold := extras.similarityThreshold.GetOr(DEFAULT_SIMILARITY_THRESHOLD);
      if mode.Some? {
        recMode := mode;
      }
    }

    /** A tap on the confirm button; a disabled button ignores it. */
    method OnConfirmClicked(state: RecognitionState, overturned: bool)
      modifies this
      ensures ConfirmEnabled(state, overturned) ==> Snapshot() == Confirmed(old(Snapshot()))
      ensures !ConfirmEnabled(state, overturned) ==> Snapshot() == old(Snapshot())
    {
      if ConfirmEnabled(state, overturned) {
        intentResult := intentResult[VERIFICATION_SUCCESSFUL := Flag(true)];
        CloseActivity(RESULT_OK);
      }
    }

    method OnFaceRecognised(faceString: string, similarFaces: seq<Face>, imagePath: string)
      modifies this
      ensures Snapshot() == Recognised(old(Snapshot()), faceString, similarFaces, imagePath)
    {
      intentResult := intentResult[FACE_STRING := Text(faceString)];
      intentResult := intentResult[IMAGE_PATH := Text(imagePath)];
      intentResult := intentResult[SIMILAR_FACES := FaceList(similarFaces)];
      CloseActivity(RESULT_OK);
    }
  }
}
