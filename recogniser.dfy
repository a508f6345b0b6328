/**
 * The camera-frame analyzer of the recognition screen. One call of
 * `Analyze` covers one frame: the optional log entries, the detector's face
 * count, the choice between reporting, clearing and recognising, and in
 * verify mode the comparison of the stored embedding with the new one.
 */
module Recogniser {
  import opened Wrappers
  import opened Constants
  import opened EmbeddingCodec
  import opened Distance

  /** `sameFace` compares Euclidean distance with this fixed bound. */
  const SAME_FACE_THRESHOLD: real := 1.0

  const MULTIPLE_FACES: string := "Multiple faces detected"
  const NOT_IN_PREVIEW: string := "face is not in preview"

  /** What the analyzer does once the detector has counted the faces of a frame. */
  datatype Dispatch = ReportMultiple | Recognise | ClearError

  /** The face-count and capture decision table of `analyze`. */
  function DispatchFor(faceCount: nat, capture: bool): (d: Dispatch)
    ensures d == ReportMultiple <==> faceCount > 1
    ensures d == Recognise <==> capture && faceCount == 1
    ensures d == ClearError <==> faceCount == 0 || (faceCount == 1 && !capture)
  {
    if faceCount > 1 then ReportMultiple
    else if capture && faceCount == 1 then Recognise
    else ClearError
  }

  /** The entries the analyzer appends to the shared `extras` list; each stands for its interpolated text. */
  datatype LogEntry =
    | ModeEntry(mode: RecognitionMode)
    | GivenLength(length: nat)
    | DetectedLength(length: nat)
    | VerificationEntry(same: bool)

  datatype BoxColor = Green | Unchanged

  /**
   * Everything the analyzer changes or reports to its callbacks: the
   * `extras` list, the colour state, the errors passed to `onErrorDetected`,
   * the results passed to `onRecognitionComplete`, the embeddings passed to
   * `onCapture`, and the face counts of the boxes drawn.
   */
  datatype Observed = Observed(
    extras: seq<LogEntry>,
    color: BoxColor,
    errors: seq<Option<string>>,
    completions: seq<bool>,
    captures: seq<string>,
    drawn: seq<nat>)

  /** A frame either runs to its end or throws an exception nothing catches. */
  datatype Outcome = Handled | Crashed(error: MatchError)

  /**
   * One frame. `bitmap` says whether the frame converted to a bitmap,
   * `detection` is the detector's face count (`None` when detection
   * failed), `cropInBounds` whether the face box lies inside the bitmap, and
   * `output` the interpreter's 192 values, the extra of the single
   * recognition. A malformed stored embedding throws a
   * `NumberFormatException`, which is an `IllegalArgumentException` and is
   * reported like a crop outside the bitmap; a stored row longer than the
   * output throws an index error that nothing catches.
   */
  function Analysed(before: Observed, mode: RecognitionMode, given: string, notify: bool, capture: bool,
                    bitmap: bool, detection: Option<nat>, cropInBounds: bool, output: seq<real>,
                    fmt: real -> string, parse: string -> Option<real>): (Observed, Outcome)
  {
    var logged := if capture then before.(extras := before.extras + [ModeEntry(mode), GivenLength(|given|)])
                  else before;
    if !bitmap || detection.None? then (logged, Handled)
    else
      var shown := logged.(drawn := logged.drawn + [detection.value]);
      match DispatchFor(detection.value, capture)
      case ReportMultiple => (shown.(errors := shown.errors + [Some(MULTIPLE_FACES)]), Handled)
      case ClearError => (shown.(errors := shown.errors + [None]), Handled)
      case Recognise =>
        OneFace(shown.(errors := shown.errors + [None]), mode, given, notify, cropInBounds, output, fmt, parse)
  }

  /** The single face of a captured frame: crop it, run the model and, in verify mode, compare. */
  function OneFace(cleared: Observed, mode: RecognitionMode, given: string, notify: bool, cropInBounds: bool,
                   output: seq<real>, fmt: real -> string, parse: string -> Option<real>): (Observed, Outcome)
  {
    if !cropInBounds then (cleared.(errors := cleared.errors + [Some(NOT_IN_PREVIEW)]), Handled)
    else
      var result := Format([output], fmt);
      var measured := cleared.(extras := cleared.extras + [DetectedLength(|result|)]);
      if mode == ENROLL then (measured.(captures := measured.captures + [result]), Handled)
      else
        match MatchDecision(given, output, SAME_FACE_THRESHOLD, parse)
        case Failure(MalformedEmbedding(_)) =>
          (measured.(errors := measured.errors + [Some(NOT_IN_PREVIEW)]), Handled)
        case Failure(e) => (measured, Crashed(e))
        case Success(same) =>
          var verified := measured.(extras := measured.extras + [VerificationEntry(same)],
                                    completions := if notify then measured.completions + [same]
                                                   else measured.completions);
          var coloured := if same then verified.(color := Green) else verified;
          (coloured.(captures := coloured.captures + [result]), Handled)
  }

  /** More than one face is reported as an error and never reaches recognition. */
  lemma MultipleFacesSkipRecognition(before: Observed, mode: RecognitionMode, given: string, notify: bool,
                                     capture: bool, faceCount: nat, cropInBounds: bool, output: seq<real>,
                                     fmt: real -> string, parse: string -> Option<real>)
    requires faceCount > 1
    ensures var (after, outcome) := Analysed(before, mode, given, notify, capture, true, Some(faceCount),
                                             cropInBounds, output, fmt, parse);
      && outcome == Handled
      && after.errors == before.errors + [Some(MULTIPLE_FACES)]
      && after.captures == before.captures && after.completions == before.completions
      && after.color == before.color
  {
  }

  /** Without capture, or with no face, the error banner is cleared and nothing else is reported. */
  lemma NoRecognitionClearsError(before: Observed, mode: RecognitionMode, given: string, notify: bool,
                                 capture: bool, faceCount: nat, cropInBounds: bool, output: seq<real>,
                                 fmt: real -> string, parse: string -> Option<real>)
    requires faceCount == 0 || (faceCount == 1 && !capture)
    ensures var (after, outcome) := Analysed(before, mode, given, notify, capture, true, Some(faceCount),
                                             cropInBounds, output, fmt, parse);
      && outcome == Handled
      && after.errors == before.errors + [None]
      && after.captures == before.captures && after.completions == before.completions
      && after.color == before.color
  {
  }

  /** A capture or a verification result is only ever reported for a captured frame with exactly one face in bounds. */
  lemma RecognitionNeedsOneFace(before: Observed, mode: RecognitionMode, given: string, notify: bool,
                                capture: bool, bitmap: bool, detection: Option<nat>, cropInBounds: bool,
                                output: seq<real>, fmt: real -> string, parse: string -> Option<real>)
    ensures var (after, _) := Analysed(before, mode, given, notify, capture, bitmap, detection, cropInBounds,
                                       output, fmt, parse);
      (after.captures != before.captures || after.completions != before.completions) ==>
        capture && bitmap && detection == Some(1) && cropInBounds
  {
  }

  /**
   * The verification callback fires only in verify mode, only when it is
   * set, and always with the result of `sameFace`; enrollment never
   * reports one.
   */
  lemma CompletionOnlyInVerify(before: Observed, mode: RecognitionMode, given: string, notify: bool,
                               capture: bool, bitmap: bool, detection: Option<nat>, cropInBounds: bool,
                               output: seq<real>, fmt: real -> string, parse: string -> Option<real>)
    ensures var (after, _) := Analysed(before, mode, given, notify, capture, bitmap, detection, cropInBounds,
                                       output, fmt, parse);
      after.completions != before.completions ==>
        && mode == VERIFY && notify
        && after.completions == before.completions + [MatchDecision(given, output, SAME_FACE_THRESHOLD, parse).value]
        && MatchDecision(given, output, SAME_FACE_THRESHOLD, parse).Success?
  {
  }

  /**
   * The box turns green exactly when a verify-mode frame with one face in
   * bounds matches the stored embedding.
   */
  lemma GreenOnlyWhenSameFace(before: Observed, mode: RecognitionMode, given: string, notify: bool,
                              capture: bool, bitmap: bool, detection: Option<nat>, cropInBounds: bool,
                              output: seq<real>, fmt: real -> string, parse: string -> Option<real>)
    requires before.color == Unchanged
    ensures var (after, _) := Analysed(before, mode, given, notify, capture, bitmap, detection, cropInBounds,
                                       output, fmt, parse);
      after.color == Green <==>
        && capture && bitmap && detection == Some(1) && cropInBounds && mode == VERIFY
        && MatchDecision(given, output, SAME_FACE_THRESHOLD, parse) == Success(true)
  {
  }

  /**
   * In verify mode, a stored embedding that is the encoding of the frame's
   * own output always matches: its distance is 0, below the bound 1.0.
   */
  lemma OwnEmbeddingVerifies(before: Observed, given: string, notify: bool, output: seq<real>,
                             fmt: real -> string, parse: string -> Option<real>)
    requires FloatText(fmt, parse) && |output| >= 1 && given == Format([output], fmt)
    ensures var (after, outcome) := Analysed(before, VERIFY, given, notify, true, true, Some(1), true,
                                             output, fmt, parse);
      && outcome == Handled && after.color == Green
      && after.captures == before.captures + [given]
      && (notify ==> after.completions == before.completions + [true])
  {
    MatchesOwnEncoding([output], SAME_FACE_THRESHOLD, fmt, parse);
  }

  /** The analyzer of one recognition screen, with the state it shares with the screen. */
  class FaceRecogniser {
    const mode: RecognitionMode
    const faceEmbedding: string
    /** Whether an `onRecognitionComplete` callback was passed. */
    const notify: bool
    var capture: bool
    var extras: seq<LogEntry>
    var boundingBoxColor: BoxColor
    var errors: seq<Option<string>>
    var completions: seq<bool>
    var captures: seq<string>
    var drawn: seq<nat>

    constructor (mode: RecognitionMode, faceEmbedding: string, notify: bool, capture: bool)
      ensures this.mode == mode && this.faceEmbedding == faceEmbedding && this.notify == notify
      ensures this.capture == capture
      ensures Snapshot() == Observed([], Unchanged, [], [], [], [])
    {
      this.mode := mode;
      this.faceEmbedding := faceEmbedding;
      this.notify := notify;
      this.capture := capture;
      extras, boundingBoxColor, errors, completions, captures, drawn := [], Unchanged, [], [], [], [];
    }

    function Snapshot(): Observed
      reads this
    {
      Observed(extras, boundingBoxColor, errors, completions, captures, drawn)
    }

    /**
     * `sameFace`: the first decoded row of the stored embedding against the
     * detected vector, by a squared-difference loop over the stored row's
     * indices; a match is a Euclidean distance strictly below 1.0.
     */
    method SameFace(given: string, detected: seq<real>, parse: string -> Option<real>)
      returns (r: Result<bool, MatchError>)
      ensures r == MatchDecision(given, detected, SAME_FACE_THRESHOLD, parse)
      ensures r.Success? ==>
        (Parse(given, parse).Success? && (r.value <==> SumSq(Parse(given, parse).value[0], detected) < 1.0))
    {
      var decoded := Parse(given, parse);
      if decoded.Failure? {
        return Failure(MalformedEmbedding(decoded.error));
      }
      var embeddingArray1 := decoded.value[0];
      var distance := SquaredDistance(embeddingArray1, detected);
      if distance.Failure? {
        return Failure(distance.error);
      }
      assert WithinThreshold(distance.value, SAME_FACE_THRESHOLD) <==> distance.value < 1.0;
      return Success(WithinThreshold(distance.value, SAME_FACE_THRESHOLD));
    }

    /** `analyze` for one frame, with the detector and the interpreter as inputs. */
    method Analyze(bitmap: bool, detection: Option<nat>, cropInBounds: bool, output: seq<real>,
                   fmt: real -> string, parse: string -> Option<real>)
      returns (outcome: Outcome)
      modifies this
      ensures capture == old(capture)
      ensures (Snapshot(), outcome) ==
        Analysed(old(Snapshot()), mode, faceEmbedding, notify, capture, bitmap, detection, cropInBounds, output,
                 fmt, parse)
    {
      if capture {
        extras := extras + [ModeEntry(mode), GivenLength(|faceEmbedding|)];
      }
      if !bitmap || detection.None? {
        return Handled;
      }
      var faces := detection.value;
      drawn := drawn + [faces];
      if faces > 1 {
        errors := errors + [Some(MULTIPLE_FACES)];
      } else if capture && faces == 1 {
        errors := errors + [None];
        outcome := RecogniseSingleFace(cropInBounds, output, fmt, parse);
        return;
      } else {
        errors := errors + [None];
      }
      return Handled;
    }

    /** The `try` block of `analyze`: crop, run the model, and compare in verify mode. */
    method RecogniseSingleFace(cropInBounds: bool, output: seq<real>, fmt: real -> string, parse: string -> Option<real>)
      returns (outcome: Outcome)
      modifies this
      ensures capture == old(capture)
      ensures (Snapshot(), outcome) ==
        OneFace(old(Snapshot()), mode, faceEmbedding, notify, cropInBounds, output, fmt, parse)
    {
      if !cropInBounds {
        errors := errors + [Some(NOT_IN_PREVIEW)];
        return Handled;
      }
      var result := Format([output], fmt);
      extras := extras + [DetectedLength(|result|)];
      if mode == VERIFY {
        var sameFace := SameFace(faceEmbedding, output, parse);
        if sameFace.Failure? {
          if sameFace.error.MalformedEmbedding? {
            errors := errors + [Some(NOT_IN_PREVIEW)];
            return Handled;
          }
          return Crashed(sameFace.error);
        }
        extras := extras + [VerificationEntry(sameFace.value)];
        if notify {
          completions := completions + [sameFace.value];
        }
        if sameFace.value {
          boundingBoxColor := Green;
        }
      }
      captures := captures + [result];
      return Handled;
    }
  }
}
