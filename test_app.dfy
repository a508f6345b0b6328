/**
 * The decision logic of the test app's home screen: `isSameFace`,
 * `faceExists`, and the counter step of the batch run over stored pictures,
 * which checks each recognised face against a sample of the faces seen so
 * far and then verifies it.
 */
module TestApp {
  import opened Wrappers
  import opened EmbeddingCodec
  import opened Distance

  /** The initial similarity threshold of the home screen. */
  const DEFAULT_THRESHOLD: real := 0.75

  /** At most this many earlier faces are compared in the duplicate check. */
  const POOL_CAP: nat := 500

  /**
   * `isSameFace`: decode the stored text, take its first row, accumulate the
   * squared differences and compare the root strictly with the threshold.
   */
  method IsSameFace(given: string, detected: seq<real>, threshold: real, parse: string -> Option<real>)
    returns (r: Result<bool, MatchError>)
    ensures r == MatchDecision(given, detected, threshold, parse)
  {
    var decoded := Parse(given, parse);
    if decoded.Failure? {
      return Failure(MalformedEmbedding(decoded.error));
    }
    var embeddingArray1 := decoded.value[0];
    var distance := SquaredDistance(embeddingArray1, detected);
    if distance.Failure? {
      return Failure(distance.error);
    }
    return Success(WithinThreshold(distance.value, threshold));
  }

  /**
   * The outcome of scanning a list in order: the first entry that throws
   * ends the scan with its error, the first match ends it with `true`.
   */
  function FirstMatch(faceList: seq<string>, detected: seq<real>, threshold: real, parse: string -> Option<real>)
    : Result<bool, MatchError>
    decreases |faceList|
  {
    if |faceList| == 0 then Success(false)
    else match MatchDecision(faceList[0], detected, threshold, parse)
      case Failure(e) => Failure(e)
      case Success(same) => if same then Success(true) else FirstMatch(faceList[1..], detected, threshold, parse)
  }

  /** `faceExists`: a linear scan that returns at the first match. */
  method FaceExists(faceList: seq<string>, detected: seq<real>, threshold: real, parse: string -> Option<real>)
    returns (r: Result<bool, MatchError>)
    ensures r == FirstMatch(faceList, detected, threshold, parse)
  {
    for i := 0 to |faceList|
      invariant FirstMatch(faceList, detected, threshold, parse) == FirstMatch(faceList[i..], detected, threshold, parse)
    {
      var faceExists := IsSameFace(faceList[i], detected, threshold, parse);
      if faceExists.Failure? {
        return Failure(faceExists.error);
      }
      if faceExists.value {
        return Success(true);
      }
      assert faceList[i..][1..] == faceList[i + 1..];
    }
    return Success(false);
  }

  /** A reported face has a matching entry before which nothing matched. */
  lemma {:induction false} FirstMatchWitness(faceList: seq<string>, detected: seq<real>, threshold: real,
                                              parse: string -> Option<real>) returns (i: nat)
    requires FirstMatch(faceList, detected, threshold, parse) == Success(true)
    ensures i < |faceList| && MatchDecision(faceList[i], detected, threshold, parse) == Success(true)
    ensures forall j :: 0 <= j < i ==> MatchDecision(faceList[j], detected, threshold, parse) == Success(false)
    decreases |faceList|
  {
    var head := MatchDecision(faceList[0], detected, threshold, parse);
    if head == Success(true) {
      i := 0;
    } else {
      var rest := faceList[1..];
      assert head == Success(false);
      assert FirstMatch(rest, detected, threshold, parse) == Success(true);
      var k := FirstMatchWitness(rest, detected, threshold, parse);
      i := k + 1;
      assert forall j :: 1 <= j < i ==> faceList[j] == rest[j - 1];
    }
  }

  /** An entry that matches after a run of non-matching ones is reported. */
  lemma {:induction false} WitnessFirstMatch(faceList: seq<string>, i: nat, detected: seq<real>, threshold: real,
                                              parse: string -> Option<real>)
    requires i < |faceList| && MatchDecision(faceList[i], detected, threshold, parse) == Success(true)
    requires forall j :: 0 <= j < i ==> MatchDecision(faceList[j], detected, threshold, parse) == Success(false)
    ensures FirstMatch(faceList, detected, threshold, parse) == Success(true)
    decreases i
  {
    if i > 0 {
      var rest := faceList[1..];
      assert MatchDecision(faceList[0], detected, threshold, parse) == Success(false);
      assert forall j :: 0 <= j < i - 1 ==> rest[j] == faceList[j + 1];
      WitnessFirstMatch(rest, i - 1, detected, threshold, parse);
    }
  }

  /** The scan reports a face exactly when some entry matches and every entry before it compares without a match. */
  lemma FirstMatchTrue(faceList: seq<string>, detected: seq<real>, threshold: real, parse: string -> Option<real>)
    ensures FirstMatch(faceList, detected, threshold, parse) == Success(true) <==>
      exists i :: 0 <= i < |faceList| && MatchDecision(faceList[i], detected, threshold, parse) == Success(true) &&
        forall j :: 0 <= j < i ==> MatchDecision(faceList[j], detected, threshold, parse) == Success(false)
  {
    if FirstMatch(faceList, detected, threshold, parse) == Success(true) {
      var i := FirstMatchWitness(faceList, detected, threshold, parse);
    }
    if exists i :: 0 <= i < |faceList| && MatchDecision(faceList[i], detected, threshold, parse) == Success(true) &&
         forall j :: 0 <= j < i ==> MatchDecision(faceList[j], detected, threshold, parse) == Success(false) {
      var i :| 0 <= i < |faceList| && MatchDecision(faceList[i], detected, threshold, parse) == Success(true) &&
         forall j :: 0 <= j < i ==> MatchDecision(faceList[j], detected, threshold, parse) == Success(false);
      WitnessFirstMatch(faceList, i, detected, threshold, parse);
    }
  }

  /** The scan reports no face exactly when every entry compares without a match; in particular for the empty list. */
  lemma {:induction false} FirstMatchFalse(faceList: seq<string>, detected: seq<real>, threshold: real,
                                            parse: string -> Option<real>)
    ensures FirstMatch(faceList, detected, threshold, parse) == Success(false) <==>
      forall i :: 0 <= i < |faceList| ==> MatchDecision(faceList[i], detected, threshold, parse) == Success(false)
    decreases |faceList|
  {
    if |faceList| > 0 {
      FirstMatchFalse(faceList[1..], detected, threshold, parse);
      assert forall i :: 1 <= i < |faceList| ==> faceList[i] == faceList[1..][i - 1];
    }
  }

  /**
   * `faceEmbeddings.shuffled().subList(0, min(500, size))`: the shuffle is
   * the permutation `shuffled`, and the pool is its first `min(500, size)`
   * entries, every one of them a stored face.
   */
  function DuplicatePool(faceEmbeddings: seq<string>, shuffled: seq<string>): (pool: seq<string>)
    requires multiset(shuffled) == multiset(faceEmbeddings)
    ensures |pool| == if |faceEmbeddings| < POOL_CAP then |faceEmbeddings| else POOL_CAP
    ensures multiset(pool) <= multiset(faceEmbeddings)
  {
    assert |shuffled| == |multiset(shuffled)| == |faceEmbeddings|;
    var n := if |faceEmbeddings| < POOL_CAP then |faceEmbeddings| else POOL_CAP;
    assert shuffled == shuffled[..n] + shuffled[n..];
    shuffled[..n]
  }

  /**
   * The duplicate check of one recognised face, or the error that makes the
   * run count it as failed; `embedding.first()` on an embedding without rows
   * throws before any stored face is compared.
   */
  function DuplicateCheck(pool: seq<string>, embedding: Matrix, threshold: real, parse: string -> Option<real>)
    : Result<bool, MatchError>
  {
    if |embedding| == 0 then Failure(NoSuchElement)
    else FirstMatch(pool, embedding[0], threshold, parse)
  }

  /** The counters of the batch run and the embeddings it has accepted so far. */
  class BatchHarness {
    var similarityThreshold: real
    var successfulEnrollments: nat
    var failedEnrollments: nat
    var falsePositives: nat
    var successfulVerifications: nat
    var failedVerifications: nat
    var faceEmbeddings: seq<string>

    /** Every false positive is a failed enrollment, and only successful enrollments are verified. */
    ghost predicate Valid()
      reads this
    {
      && falsePositives <= failedEnrollments
      && successfulVerifications + failedVerifications <= successfulEnrollments
    }

    constructor ()
      ensures Valid()
      ensures similarityThreshold == DEFAULT_THRESHOLD && faceEmbeddings == []
      ensures successfulEnrollments == failedEnrollments == falsePositives == 0
      ensures successfulVerifications == failedVerifications == 0
    {
      similarityThreshold := DEFAULT_THRESHOLD;
      successfulEnrollments, failedEnrollments, falsePositives := 0, 0, 0;
      successfulVerifications, failedVerifications := 0, 0;
      faceEmbeddings := [];
    }

    /**
     * One recognised face of the batch run: `embedding` is the extra of the
     * first recognition and `shuffled` the shuffle of the stored faces. Any
     * exception of the duplicate check or of the verification is caught and
     * counted as a failed enrollment. The verification reads its embedding
     * from the first recognition again, so it compares the face with itself.
     */
    method RecogniseFace(embedding: Matrix, shuffled: seq<string>, fmt: real -> string, parse: string -> Option<real>)
      requires Valid()
      requires multiset(shuffled) == multiset(faceEmbeddings)
      modifies this
      ensures Valid()
      ensures similarityThreshold == old(similarityThreshold)
      ensures var dup := DuplicateCheck(DuplicatePool(old(faceEmbeddings), shuffled), embedding, similarityThreshold, parse);
        && (dup.Failure? ==>
              && failedEnrollments == old(failedEnrollments) + 1
              && successfulEnrollments == old(successfulEnrollments)
              && falsePositives == old(falsePositives)
              && successfulVerifications == old(successfulVerifications)
              && failedVerifications == old(failedVerifications)
              && faceEmbeddings == old(faceEmbeddings))
        && (dup.Success? ==> faceEmbeddings == old(faceEmbeddings) + [Format(embedding, fmt)])
        && (dup == Success(true) ==>
              && failedEnrollments == old(failedEnrollments) + 1
              && falsePositives == old(falsePositives) + 1
              && successfulEnrollments == old(successfulEnrollments)
              && successfulVerifications == old(successfulVerifications)
              && failedVerifications == old(failedVerifications))
        && (dup == Success(false) ==>
              var v := MatchDecision(Format(embedding, fmt), embedding[0], similarityThreshold, parse);
              && successfulEnrollments == old(successfulEnrollments) + 1
              && falsePositives == old(falsePositives)
              && failedEnrollments == old(failedEnrollments) + (if v.Failure? then 1 else 0)
              && successfulVerifications == old(successfulVerifications) + (if v == Success(true) then 1 else 0)
              && failedVerifications == old(failedVerifications) + (if v == Success(false) then 1 else 0))
      ensures FloatText(fmt, parse) && |embedding| >= 1 && (forall i :: 0 <= i < |embedding| ==> |embedding[i]| >= 1) ==>
        && failedEnrollments + successfulEnrollments == old(failedEnrollments + successfulEnrollments) + 1
        && (successfulEnrollments > old(successfulEnrollments) ==>
              successfulVerifications == old(successfulVerifications) + (if similarityThreshold > 0.0 then 1 else 0))
    {
      var pool := DuplicatePool(faceEmbeddings, shuffled);
      var faceEmbedding := Format(embedding, fmt);
      if |embedding| == 0 {
        failedEnrollments := failedEnrollments + 1;
        return;
      }
      var faceExists := FaceExists(pool, embedding[0], similarityThreshold, parse);
      if faceExists.Failure? {
        failedEnrollments := failedEnrollments + 1;
        return;
      }
      faceEmbeddings := faceEmbeddings + [faceEmbedding];
      if faceExists.value {
        failedEnrollments := failedEnrollments + 1;
        falsePositives := falsePositives + 1;
      } else {
        successfulEnrollments := successfulEnrollments + 1;
        var embedding2 := embedding;
        var tp := IsSameFace(faceEmbedding, embedding2[0], similarityThreshold, parse);
        if tp.Failure? {
          failedEnrollments := failedEnrollments + 1;
        } else if tp.value {
          successfulVerifications := successfulVerifications + 1;
        } else {
          failedVerifications := failedVerifications + 1;
        }
        if FloatText(fmt, parse) && forall i :: 0 <= i < |embedding| ==> |embedding[i]| >= 1 {
          MatchesOwnEncoding(embedding, similarityThreshold, fmt, parse);
        }
      }
    }
  }
}
