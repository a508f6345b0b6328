# face_recognition — a Dafny model of the recognition core

This is a model of the core of an Android face-recognition library and of its demo app:

- **Embedding codec** (`EmbeddingCodec`). A face embedding (the float matrix a MobileFaceNet
  interpreter produces) is turned into the text `[[a, b, …], [c, …]]` and parsed back.
- **Distance check** (`Distance`). A stored embedding text is compared with a detected
  embedding by Euclidean distance against a threshold.
- **Demo app's batch harness** (`TestApp`):
  - `isSameFace` and the duplicate scan `faceExists`;
  - the per-image enrollment and verification step, with its six counters.
- **Room table of test faces** (`FaceTests`): the `FaceTest` row, and the `FaceTestDao`
  operations insert, record-a-verification, list-all and clear.
- **Camera analyser** (`Recogniser`): `FaceRecogniser.analyze`, which decides per frame whether
  to report several faces, recognise the single face or clear the error, and `sameFace`, its
  fixed 1.0 threshold check.
- **TFLite front end** (`TFLite`):
  - `create`'s buffer sizing;
  - `recognizeImage`'s pixel normalisation into the input buffer;
  - the single recognition it returns.
- **`Recognition`** (`Classifier`): the result record and its `toString`.
- **`Face` parcelable** (`Faces`) and the string and rectangle extensions (`Extensions`).
- **Recognition screen's result protocol** (`RecognitionScreen`): `onStart`'s validation of the
  intent, the confirm button, `closeActivity` and `onFaceRecognised`.

`Wrappers` holds `Option` and `Result`. `Text` holds Kotlin's `split`, `trim` and
`joinToString` on strings, with their lemmas. `Constants` holds the intent keys and modes.

Some choices run through the whole model:

- **Floats are `real`.**
  - `Float.toString` and `String.toFloat` are parameters, `fmt` and `parse`.
  - The predicate `FloatText` states the only facts the codec relies on:
    - parsing a formatted value gives it back, also after a leading space;
    - the text has no bracket and no comma;
    - the empty text does not parse.
- **No square root.** "`sqrt(d) < t`" is stated as `t > 0 && d < t * t`. `Distance.SqrtComparison`
  proves the two agree.
- **Exceptions are results.** A malformed stored embedding (`NumberFormatException`) and a stored
  row longer than the detected one (index out of bounds) are `Failure`s, not preconditions.
- **Stateful objects are classes.** The DAO, the analyser, the byte buffer, the interpreter
  wrapper, the parcel and the activity are classes over their mutable state. Each method's
  `ensures` ties the new state to a specification function of the old state (`Insert`,
  `Recorded`, `Analysed`, `Started`, `Closed`, …). The lemmas prove the promised properties
  about those functions.

## Model

| member | source | states |
|---|---|---|
| EmbeddingCodec.RoundTrip | face-recognition/src/main/java/com/mateendemah/face_recognition/Embedding.kt:9-23 | parsing the text made from any matrix whose rows are non-empty gives that matrix back |
| EmbeddingCodec.RowsRoundTrip | face-recognition/src/main/java/com/mateendemah/face_recognition/Embedding.kt:12-13 | splitting each formatted row on commas and parsing every token restores every row |
| EmbeddingCodec.RowRoundTrip | face-recognition/src/main/java/com/mateendemah/face_recognition/Embedding.kt:13 | one formatted row, with or without the leading space left by the `], [` split, parses back to itself |
| EmbeddingCodec.FormatShape | face-recognition/src/main/java/com/mateendemah/face_recognition/Embedding.kt:20-23 | the list-of-lists `toString` is `[` + the row bodies joined by `], [` + `]` |
| EmbeddingCodec.ParseTokens | face-recognition/src/main/java/com/mateendemah/face_recognition/Embedding.kt:13 | a row parses exactly when every token parses, in order; a failure names a token that does not parse |
| EmbeddingCodec.Parse | face-recognition/src/main/java/com/mateendemah/face_recognition/Embedding.kt:9-17 | a successful parse has one row per piece of the bracket-trimmed text split on `], [` (at least one) |
| EmbeddingCodec.RowCount | face-recognition/src/main/java/com/mateendemah/face_recognition/Embedding.kt:11-12 | the number of rows is one more than the number of `], [` separators |
| EmbeddingCodec.ExtraBracketsIgnored | face-recognition/src/main/java/com/mateendemah/face_recognition/Embedding.kt:11 | an extra pair of outer brackets does not change the parse, since `trim('[', ']')` strips all of them |
| EmbeddingCodec.BracketsOnlyFail | face-recognition/src/main/java/com/mateendemah/face_recognition/Embedding.kt:11-13 | text made only of brackets, the empty text included, fails: the single empty token is not a float |
| EmbeddingCodec.TrailingCommaFails | face-recognition/src/main/java/com/mateendemah/face_recognition/Embedding.kt:11-13 | any text with a row (a piece of the `], [` split) that ends in a comma fails to parse: splitting that row on `,` leaves an empty last token, and the empty text is not a float |
| Distance.SumSq | face-recognition/src/main/java/com/mateendemah/face_recognition/FaceRecogniser.kt:125-129 | the accumulated squared distance is never negative |
| Distance.SquaredDistance | app/src/main/java/com/mateendemah/facerecognitionlibrary/MainActivity.kt:661-665 | the loop sums the squared differences over the stored row's indices; a stored row longer than the detected one is an index error at the detected length |
| Distance.SqrtComparison | app/src/main/java/com/mateendemah/facerecognitionlibrary/MainActivity.kt:666-668 | for the non-negative root `d` of the sum, `d < threshold` holds exactly when `WithinThreshold` does |
| Distance.TieIsNoMatch | app/src/main/java/com/mateendemah/facerecognitionlibrary/MainActivity.kt:668 | a distance equal to the threshold is not a match (strict comparison) |
| Distance.SumSqSymmetric | app/src/main/java/com/mateendemah/facerecognitionlibrary/MainActivity.kt:662-665 | for rows of equal length the squared distance does not depend on which is stored |
| Distance.SumSqOfPrefix | app/src/main/java/com/mateendemah/facerecognitionlibrary/MainActivity.kt:662-665 | a detected row that starts with the stored row is at distance zero |
| Distance.MatchesOwnEncoding | app/src/main/java/com/mateendemah/facerecognitionlibrary/MainActivity.kt:659-668 | an embedding compared with its own text succeeds, and matches exactly when the threshold is positive |
| Distance.OnlyFirstRowCompared | app/src/main/java/com/mateendemah/facerecognitionlibrary/MainActivity.kt:660 | only the first row of the stored embedding takes part; further rows do not change the decision |
| Distance.ExtraDetectedIgnored | app/src/main/java/com/mateendemah/facerecognitionlibrary/MainActivity.kt:662-665 | values of the detected row past the stored row's length do not change a successful decision |
| TestApp.IsSameFace | app/src/main/java/com/mateendemah/facerecognitionlibrary/MainActivity.kt:659-668 | the outcome is a parse failure, an index error, or whether the first stored row lies strictly within the threshold |
| TestApp.FaceExists | app/src/main/java/com/mateendemah/facerecognitionlibrary/MainActivity.kt:647-657 | scanning the list in order: the first error escapes, the first match returns true, and otherwise the answer is false |
| TestApp.FirstMatchWitness | app/src/main/java/com/mateendemah/facerecognitionlibrary/MainActivity.kt:652-655 | a true result has a matching face whose predecessors were all checked without error and did not match |
| TestApp.WitnessFirstMatch | app/src/main/java/com/mateendemah/facerecognitionlibrary/MainActivity.kt:652-655 | conversely, such a face makes the scan answer true |
| TestApp.FirstMatchTrue | app/src/main/java/com/mateendemah/facerecognitionlibrary/MainActivity.kt:652-656 | both directions: true exactly when some face matches after only clean non-matches |
| TestApp.FirstMatchFalse | app/src/main/java/com/mateendemah/facerecognitionlibrary/MainActivity.kt:652-656 | false exactly when every face was checked without error and none matched (so an empty list gives false) |
| TestApp.DuplicatePool | app/src/main/java/com/mateendemah/facerecognitionlibrary/MainActivity.kt:412 | the duplicate scan sees `min(500, n)` stored faces, all drawn from the stored list |
| TestApp.BatchHarness.constructor | app/src/main/java/com/mateendemah/facerecognitionlibrary/MainActivity.kt:118-128 | threshold 0.75, all counters zero, no stored faces |
| TestApp.BatchHarness.RecogniseFace | app/src/main/java/com/mateendemah/facerecognitionlibrary/MainActivity.kt:404-444 | per outcome of the duplicate check, which counters rise and that the new text is stored; for a well-formed embedding exactly one of the enrollment counters rises, and a successful enrollment verifies exactly when the threshold is positive |
| Extensions.ToRecognitionMode | face-recognition/src/main/java/com/mateendemah/face_recognition/Extensions.kt:8-10 | the mode is enroll exactly for the text `enroll`, and verify for every other text |
| Extensions.TransformToRectF | face-recognition/src/main/java/com/mateendemah/face_recognition/Extensions.kt:13-35 | each edge is scaled by preview size over image size; with the front lens the horizontal edges are first mirrored as `width - x` |
| Extensions.FrontIsMirroredBack | face-recognition/src/main/java/com/mateendemah/face_recognition/Extensions.kt:25-28 | the front-lens box is the back-lens box of the horizontally mirrored rectangle |
| Extensions.VerticalIgnoresLens | face-recognition/src/main/java/com/mateendemah/face_recognition/Extensions.kt:31-33 | top and bottom do not depend on the lens |
| Extensions.BackLensSameSizeIdentity | face-recognition/src/main/java/com/mateendemah/face_recognition/Extensions.kt:13-35 | with the back lens and a preview the size of the image the box is unchanged |
| Extensions.FrontLensReversesEdges | face-recognition/src/main/java/com/mateendemah/face_recognition/Extensions.kt:25-32 | with the front lens a well-ordered box comes out with left beyond right |
| FaceTests.NewFaceTest | app/src/main/java/com/mateendemah/facerecognitionlibrary/FaceTest.kt:9-16 | a new row has id 0 (to be generated) and no attempts or successes |
| FaceTests.FailedVerifications | app/src/main/java/com/mateendemah/facerecognitionlibrary/FaceTest.kt:14-15 | failures plus successes make up the attempts |
| FaceTests.Cleared | app/src/main/java/com/mateendemah/facerecognitionlibrary/FaceTestDao.kt:19-20 | clearing empties the table and keeps the id sequence |
| FaceTests.InsertAddsOneRow | app/src/main/java/com/mateendemah/facerecognitionlibrary/FaceTestDao.kt:10-11 | a successful insert adds exactly the new row under its id and keeps every other row |
| FaceTests.InsertFailsOnlyOnTakenId | app/src/main/java/com/mateendemah/facerecognitionlibrary/FaceTestDao.kt:10-11 | an insert fails exactly when it carries an explicit id that is already taken |
| FaceTests.GeneratedIdIsFresh | app/src/main/java/com/mateendemah/facerecognitionlibrary/FaceTest.kt:10 | a generated id is larger than every id handed out before, also after the table was cleared |
| FaceTests.InsertKeepsConsistent | app/src/main/java/com/mateendemah/facerecognitionlibrary/FaceTestDao.kt:10-11 | inserting a consistent row keeps every row's successes within its attempts |
| FaceTests.RecordedTouchesOneRow | app/src/main/java/com/mateendemah/facerecognitionlibrary/FaceTestDao.kt:13-14 | the update changes only the row with that id: one more attempt and `result` more successes |
| FaceTests.RecordedKeepsConsistent | app/src/main/java/com/mateendemah/facerecognitionlibrary/FaceTestDao.kt:13-14 | recording a result of 0 or 1 keeps every row consistent |
| FaceTests.RowsInOrderSorted | app/src/main/java/com/mateendemah/facerecognitionlibrary/FaceTestDao.kt:16-17 | the listing is strictly ascending by id |
| FaceTests.RowsInOrderComplete | app/src/main/java/com/mateendemah/facerecognitionlibrary/FaceTestDao.kt:16-17 | every row of the table is listed |
| FaceTests.AllRowsListsTable | app/src/main/java/com/mateendemah/facerecognitionlibrary/FaceTestDao.kt:16-17 | the listing has one entry per row, each entry is the table's row for its id, and every row appears |
| FaceTests.FaceTestDao.constructor | app/src/main/java/com/mateendemah/facerecognitionlibrary/FaceTestDao.kt:8-9 | a new database has no rows and an unused id sequence |
| FaceTests.FaceTestDao.SaveAFace | app/src/main/java/com/mateendemah/facerecognitionlibrary/FaceTestDao.kt:10-11 | the table becomes `Insert` of the row; a constraint failure leaves it unchanged |
| FaceTests.FaceTestDao.RecordAVerification | app/src/main/java/com/mateendemah/facerecognitionlibrary/FaceTestDao.kt:13-14 | the table becomes `Recorded` of the result and id |
| FaceTests.FaceTestDao.GetAll | app/src/main/java/com/mateendemah/facerecognitionlibrary/FaceTestDao.kt:16-17 | the loop returns the rows in ascending id order, as `AllRows` lists them |
| FaceTests.FaceTestDao.ClearDb | app/src/main/java/com/mateendemah/facerecognitionlibrary/FaceTestDao.kt:19-20 | the table becomes `Cleared` |
| Faces.NullableToString | face-recognition/src/main/java/com/mateendemah/face_recognition/Face.kt:11-12 | a read string is kept; a null becomes the text `null` |
| Faces.ReadAfterWrite | face-recognition/src/main/java/com/mateendemah/face_recognition/Face.kt:10-19 | reading a face where one was written gives back that face, whatever precedes or follows |
| Faces.NullsReadAsText | face-recognition/src/main/java/com/mateendemah/face_recognition/Face.kt:10-13 | reading past the written data gives the face `("null", "null")` |
| Faces.DescribeContents | face-recognition/src/main/java/com/mateendemah/face_recognition/Face.kt:21-23 | no special contents: 0 |
| Faces.NewArray | face-recognition/src/main/java/com/mateendemah/face_recognition/Face.kt:30-32 | a non-negative size gives that many nulls; a negative size fails |
| Faces.Parcel.WriteString | face-recognition/src/main/java/com/mateendemah/face_recognition/Face.kt:17-18 | the string is appended to the parcel; the read position does not move |
| Faces.Parcel.ReadString | face-recognition/src/main/java/com/mateendemah/face_recognition/Face.kt:11-12 | the entry at the read position is returned and the position advances; past the end the result is null |
| Faces.WriteToParcel | face-recognition/src/main/java/com/mateendemah/face_recognition/Face.kt:16-19 | the embedding, then the identifier, are appended |
| Faces.FromParcel | face-recognition/src/main/java/com/mateendemah/face_recognition/Face.kt:26-28 | the face is read from the parcel's read position; the data is unchanged and the position has moved past the two reads, stopping at the end of the data |
| Faces.ParcelRoundTrip | face-recognition/src/main/java/com/mateendemah/face_recognition/Face.kt:10-28 | writing a face into a fresh parcel and creating one from it gives the same face |
| Classifier.Recognition.constructor | face-recognition/src/main/java/com/mateendemah/face_recognition/SimilarityClassifier.java:50-57 | the four given fields are stored, and the extra is null |
| Classifier.Recognition.SetExtra | face-recognition/src/main/java/com/mateendemah/face_recognition/SimilarityClassifier.java:59-61 | the extra becomes the given matrix |
| Classifier.Recognition.GetExtra | face-recognition/src/main/java/com/mateendemah/face_recognition/SimilarityClassifier.java:62-64 | returns the extra |
| Classifier.Recognition.ToString | face-recognition/src/main/java/com/mateendemah/face_recognition/SimilarityClassifier.java:68-87 | the text is the present parts, trimmed: it neither begins nor ends with whitespace |
| Classifier.NothingSetIsEmpty | face-recognition/src/main/java/com/mateendemah/face_recognition/SimilarityClassifier.java:68-87 | a recognition with no fields prints as the empty text |
| Classifier.IdOpensText | face-recognition/src/main/java/com/mateendemah/face_recognition/SimilarityClassifier.java:70-72 | with an id present the text starts with `[` + id + `]` |
| Classifier.AllPartsInOrder | face-recognition/src/main/java/com/mateendemah/face_recognition/SimilarityClassifier.java:68-87 | with every field present the text is `[id] title (p%) location`, and only the final space is trimmed |
| Recogniser.DispatchFor | face-recognition/src/main/java/com/mateendemah/face_recognition/FaceRecogniser.kt:55-58 | several faces report an error; one face while capturing is recognised; anything else clears the error |
| Recogniser.MultipleFacesSkipRecognition | face-recognition/src/main/java/com/mateendemah/face_recognition/FaceRecogniser.kt:55-57 | with several faces only the error is reported: nothing is captured or completed, and the box colour stays |
| Recogniser.NoRecognitionClearsError | face-recognition/src/main/java/com/mateendemah/face_recognition/FaceRecogniser.kt:112-114 | with no face, or one face while not capturing, the error is cleared and nothing else happens |
| Recogniser.RecognitionNeedsOneFace | face-recognition/src/main/java/com/mateendemah/face_recognition/FaceRecogniser.kt:58-73 | a capture or a completion is reported only for a captured frame with exactly one face inside the bitmap |
| Recogniser.CompletionOnlyInVerify | face-recognition/src/main/java/com/mateendemah/face_recognition/FaceRecogniser.kt:81-84 | the completion callback fires only in verify mode with a callback set, and always with the comparison's successful answer |
| Recogniser.GreenOnlyWhenSameFace | face-recognition/src/main/java/com/mateendemah/face_recognition/FaceRecogniser.kt:85-87 | starting from the default colour, the box turns green exactly when a captured verify-mode frame with one face in bounds compares within the 1.0 threshold |
| Recogniser.OwnEmbeddingVerifies | face-recognition/src/main/java/com/mateendemah/face_recognition/FaceRecogniser.kt:73-88 | verifying a face against its own stored embedding completes with true and turns the box green |
| Recogniser.FaceRecogniser.constructor | face-recognition/src/main/java/com/mateendemah/face_recognition/FaceRecogniser.kt:20-31 | the analyser keeps its mode, stored embedding and capture flag, and starts with nothing observed |
| Recogniser.FaceRecogniser.SameFace | face-recognition/src/main/java/com/mateendemah/face_recognition/FaceRecogniser.kt:123-133 | the distance decision at threshold 1.0; on success the stored text parsed and the answer is whether the squared distance is below 1 |
| Recogniser.FaceRecogniser.Analyze | face-recognition/src/main/java/com/mateendemah/face_recognition/FaceRecogniser.kt:42-121 | the observable effects of one frame (log entries, drawn boxes, errors, captures, completions, box colour) and whether it crashes are those `Analysed` gives |
| Recogniser.FaceRecogniser.RecogniseSingleFace | face-recognition/src/main/java/com/mateendemah/face_recognition/FaceRecogniser.kt:63-110 | the crop, model run and verify-mode comparison of the single face have the effects `OneFace` gives: a crop outside the bitmap or a malformed stored embedding reports "face is not in preview", an index error escapes |
| TFLite.BytesPerChannel | face-recognition/src/main/java/com/mateendemah/face_recognition/TFLiteObjectDetectionAPIModel.java:128-133 | one byte per channel exactly for a quantized model, four otherwise |
| TFLite.Normalize | face-recognition/src/main/java/com/mateendemah/face_recognition/TFLiteObjectDetectionAPIModel.java:166-168 | a channel value maps into [-1, 127/128] and is recovered as `v * 128 + 128` |
| TFLite.AlphaIgnored | face-recognition/src/main/java/com/mateendemah/face_recognition/TFLiteObjectDetectionAPIModel.java:162-168 | the alpha byte of a pixel does not affect its encoding |
| TFLite.PixelBytesLength | face-recognition/src/main/java/com/mateendemah/face_recognition/TFLiteObjectDetectionAPIModel.java:160-169 | a pixel takes 3 bytes quantized, 12 as floats |
| TFLite.EncodedLength | face-recognition/src/main/java/com/mateendemah/face_recognition/TFLiteObjectDetectionAPIModel.java:157-171 | the encoded image takes pixel count times stride bytes |
| TFLite.EncodedPixelAt | face-recognition/src/main/java/com/mateendemah/face_recognition/TFLiteObjectDetectionAPIModel.java:157-171 | the k-th stride of the encoding is exactly the k-th pixel's bytes |
| TFLite.ByteBuffer.Allocate | face-recognition/src/main/java/com/mateendemah/face_recognition/TFLiteObjectDetectionAPIModel.java:134 | a fresh buffer of the given capacity, positioned at 0 |
| TFLite.ByteBuffer.Rewind | face-recognition/src/main/java/com/mateendemah/face_recognition/TFLiteObjectDetectionAPIModel.java:156 | the position returns to 0 |
| TFLite.ByteBuffer.Put | face-recognition/src/main/java/com/mateendemah/face_recognition/TFLiteObjectDetectionAPIModel.java:162-164 | the byte is appended at the position, which advances by one |
| TFLite.ByteBuffer.PutFloat | face-recognition/src/main/java/com/mateendemah/face_recognition/TFLiteObjectDetectionAPIModel.java:166-168 | the float's four bytes are appended, and the position advances by four |
| TFLite.FaceModel.Create | face-recognition/src/main/java/com/mateendemah/face_recognition/TFLiteObjectDetectionAPIModel.java:126-136 | the input buffer holds `size * size * 3 * bytesPerChannel` bytes and the pixel array `size * size` ints |
| TFLite.FaceModel.PutPixel | face-recognition/src/main/java/com/mateendemah/face_recognition/TFLiteObjectDetectionAPIModel.java:159-169 | one pixel's bytes are appended to the input buffer |
| TFLite.FaceModel.PreprocessRow | face-recognition/src/main/java/com/mateendemah/face_recognition/TFLiteObjectDetectionAPIModel.java:158-170 | after row i the buffer holds the encoding of the first `(i + 1) * size` pixels |
| TFLite.FaceModel.RecognizeImage | face-recognition/src/main/java/com/mateendemah/face_recognition/TFLiteObjectDetectionAPIModel.java:154-215 | the buffer is filled with exactly the encoding of all pixels; one recognition `("0", "?", Float.MAX_VALUE, empty box)` is returned, carrying the 192 interpreter outputs as its extra exactly when asked |
| RecognitionScreen.ValidationError | face-recognition/src/main/java/com/mateendemah/face_recognition/RecognitionUI.kt:107-119 | enroll without the list of stored faces and verify without the stored face are the two bad requests, each if and only if |
| RecognitionScreen.Closed | face-recognition/src/main/java/com/mateendemah/face_recognition/RecognitionUI.kt:770-776 | closing sets the result code and finishes, keeping the screen's configuration |
| RecognitionScreen.ClosedAttachesModeIfKnown | face-recognition/src/main/java/com/mateendemah/face_recognition/RecognitionUI.kt:771-773 | the mode is put into the result exactly when it was initialised, and no other key changes |
| RecognitionScreen.EnrollWithoutListFails | face-recognition/src/main/java/com/mateendemah/face_recognition/RecognitionUI.kt:107-112 | enroll without the list closes with `RESULT_OK` and a `bad request` message, yet still stores the defaults and the mode |
| RecognitionScreen.VerifyWithoutFaceFails | face-recognition/src/main/java/com/mateendemah/face_recognition/RecognitionUI.kt:113-118 | verify without the face closes with `RESULT_OK` and a `bad request` message |
| RecognitionScreen.ValidStartKeepsResult | face-recognition/src/main/java/com/mateendemah/face_recognition/RecognitionUI.kt:107-130 | a valid request leaves the result untouched and stores the list (or empty), the threshold (or 0.65) and the mode |
| RecognitionScreen.ConfirmReportsSuccess | face-recognition/src/main/java/com/mateendemah/face_recognition/RecognitionUI.kt:612-617 | confirming reports a successful verification and the mode, and closes with `RESULT_OK` |
| RecognitionScreen.RecognisedResult | face-recognition/src/main/java/com/mateendemah/face_recognition/RecognitionUI.kt:778-783 | the result carries the face text, the image path and the similar faces, and closes with `RESULT_OK` |
| RecognitionScreen.RecognitionActivity.constructor | face-recognition/src/main/java/com/mateendemah/face_recognition/RecognitionUI.kt:70-83 | an empty result, an unset mode and an unfinished screen |
| RecognitionScreen.RecognitionActivity.CloseActivity | face-recognition/src/main/java/com/mateendemah/face_recognition/RecognitionUI.kt:770-776 | the screen becomes `Closed` with the given code |
| RecognitionScreen.RecognitionActivity.OnStart | face-recognition/src/main/java/com/mateendemah/face_recognition/RecognitionUI.kt:85-142 | the screen becomes `Started` with the intent's extras |
| RecognitionScreen.RecognitionActivity.OnConfirmClicked | face-recognition/src/main/java/com/mateendemah/face_recognition/RecognitionUI.kt:612-617 | an enabled button confirms; a disabled one changes nothing |
| RecognitionScreen.RecognitionActivity.OnFaceRecognised | face-recognition/src/main/java/com/mateendemah/face_recognition/RecognitionUI.kt:778-783 | the screen becomes `Recognised` |

## Left out

- Float rounding. Single-precision arithmetic, `Float.toString`, `String.toFloat` and `String.format("%.1f")` are not modelled. They are abstract function parameters, and the codec relies only on the `FloatText` facts.
- Square root. `sqrt(d).toFloat() < t` is modelled as `t > 0 && d < t * t`, with no rounding of the root.
- Counter overflow. The harness's counters and the table's attempt counts are unbounded integers; 32-bit wrap-around is not modelled.
- Shuffle randomness. `shuffled()` is a parameter of `RecogniseFace`, required to be a permutation of the stored faces.
- Exceptions in the batch harness.
  - Exceptions other than the duplicate check's and the verification's (bitmap decoding, cropping) are not modelled.
  - The whole per-image step assumes the image was loaded and at least one face detected, of which the first is used. A detected face left over from an earlier image, kept in a variable declared outside the per-image loop, is not modelled.
- Android `Parcel`. It is modelled as a list of nullable strings with a read position; marshalling and `flags` are not modelled.
- Room and SQLite internals.
  - The table is a map from id to row, with the AUTOINCREMENT sequence as `lastId`.
  - `getAll`'s unspecified order is fixed as ascending id.
  - Threads and transactions are not modelled.
- Log texts. `Log` calls are left out. `extras.add(...)` log lines are `LogEntry` values carrying the logged data, not the formatted strings.
- ML Kit, the camera, the bitmap and TFLite.
  - The detector's face count, its failure, whether the crop fits the bitmap and the interpreter's 192 output values are inputs.
  - The asynchronous success/failure/complete callbacks are collapsed into one synchronous step, and `image.close()` is not modelled.
- `create`'s file work. `loadModelFile`, reading the labels file and constructing the `Interpreter` are not modelled, and `ByteOrder.nativeOrder()` is folded into the abstract float encoder.
- TFLite.FaceModel.RecognizeImage: requires the pixel list to have `inputSize * inputSize` entries, because every caller scales the bitmap to 112 x 112 first. It also assumes the interpreter yields 192 values, as the output array is sized.
- TFLite.ByteBuffer.Put and TFLite.ByteBuffer.PutFloat: require room in the buffer; the `BufferOverflowException` is not modelled.
- Extensions.TransformToRectF: requires a non-zero image size; the source's float division by zero, giving Infinity or NaN, is not modelled.
- The screen's UI.
  - `requestCameraPermission`, `setContent` and the Compose UI, the output directory and the executor in `onStart` are left out.
  - The subject extras and `getParcelableArrayListExtra(EXISTING_FACES)` are read but never used by the modelled logic.
- `FaceRecogniser.faceExists` (called from the recognition screen's enroll flow) is not part of this model.
- `handleImageCapture` and `onFaceVerificationComplete` are not modelled beyond the confirm path.
