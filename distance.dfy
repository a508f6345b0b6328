/**
 * The Euclidean match decision shared by `isSameFace` (the test app) and
 * `sameFace` (the library): decode the stored embedding text, take its first
 * row, sum the squared differences over that row's indices, take the square
 * root and compare it strictly with a threshold.
 *
 * Distances are reals. `sqrt(s) < t` is decided as `t > 0 && s < t * t`,
 * which `SqrtComparison` shows to be the same test for every square root.
 */
module Distance {
  import opened Wrappers
  import opened EmbeddingCodec

  /**
   * What the comparison can throw: a `NumberFormatException` from decoding,
   * an index past the detected vector, or the `NoSuchElementException` of
   * `first()` on an embedding without rows.
   */
  datatype MatchError = MalformedEmbedding(token: string) | IndexOutOfBounds(index: nat) | NoSuchElement

  /** The squared-difference sum over the indices of `stored`, accumulated left to right. */
  function SumSq(stored: seq<real>, detected: seq<real>): (s: real)
    requires |stored| <= |detected|
    ensures s >= 0.0
    decreases |stored|
  {
    if |stored| == 0 then 0.0
    else
      var k := |stored| - 1;
      var diff := stored[k] - detected[k];
      SquareNonNegative(diff);
      SumSq(stored[..k], detected) + diff * diff
  }

  lemma SquareNonNegative(x: real)
    ensures x * x >= 0.0
  {
    if x < 0.0 {
      assert x * x == (-x) * (-x);
    }
  }

  /** `sqrt(sumSq) < threshold`, stated without the square root. */
  predicate WithinThreshold(sumSq: real, threshold: real)
  {
    threshold > 0.0 && sumSq < threshold * threshold
  }

  /** For the square root `d` of `s`, `d < t` holds exactly when `WithinThreshold(s, t)` does. */
  lemma SqrtComparison(d: real, s: real, t: real)
    requires d >= 0.0 && d * d == s
    ensures d < t <==> WithinThreshold(s, t)
  {
    if d < t {
      SquareStrictlyMonotone(d, t);
    } else if t > 0.0 && t < d {
      SquareStrictlyMonotone(t, d);
    }
  }

  /** Squaring is strictly monotone on the non-negative reals. */
  lemma SquareStrictlyMonotone(a: real, b: real)
    requires 0.0 <= a && a < b
    ensures a * a < b * b
  {
    ProductPositive(b - a, b + a);
  }

  lemma ProductPositive(x: real, y: real)
    requires x > 0.0 && y > 0.0
    ensures x * y > 0.0
  {
  }

  /**
   * The result of comparing a stored embedding text with a detected vector:
   * the decoding error, the index error, or whether the distance between the
   * first stored row and the detected vector is below the threshold.
   */
  function MatchDecision(given: string, detected: seq<real>, threshold: real, parse: string -> Option<real>)
    : Result<bool, MatchError>
  {
    match Parse(given, parse)
    case Failure(token) => Failure(MalformedEmbedding(token))
    case Success(rows) =>
      var stored := rows[0];
      if |stored| > |detected| then Failure(IndexOutOfBounds(|detected|))
      else Success(WithinThreshold(SumSq(stored, detected), threshold))
  }

  /**
   * The accumulation loop: the sum of squared differences over the indices of
   * `stored`, or the index error at the first index `detected` lacks.
   */
  method SquaredDistance(stored: seq<real>, detected: seq<real>) returns (r: Result<real, MatchError>)
    ensures |stored| <= |detected| ==> r == Success(SumSq(stored, detected))
    ensures |stored| > |detected| ==> r == Failure(IndexOutOfBounds(|detected|))
  {
    var distance := 0.0;
    for index := 0 to |stored|
      invariant index <= |detected|
      invariant distance == SumSq(stored[..index], detected)
    {
      if index >= |detected| {
        return Failure(IndexOutOfBounds(index));
      }
      var difference := stored[index] - detected[index];
      assert stored[..index + 1][..index] == stored[..index];
      distance := distance + difference * difference;
    }
    assert stored[..|stored|] == stored;
    return Success(distance);
  }

  // ----- properties of the distance -----

  /** A vector is at distance 0 from any vector that starts with it. */
  lemma {:induction false} SumSqOfPrefix(stored: seq<real>, detected: seq<real>)
    requires |stored| <= |detected| && detected[..|stored|] == stored
    ensures SumSq(stored, detected) == 0.0
    decreases |stored|
  {
    if |stored| > 0 {
      var k := |stored| - 1;
      assert detected[..k] == stored[..k];
      SumSqOfPrefix(stored[..k], detected);
    }
  }

  /** Entries of the detected vector past the stored row's length do not count. */
  lemma {:induction false} SumSqIgnoresExtra(stored: seq<real>, detected: seq<real>, extra: seq<real>)
    requires |stored| <= |detected|
    ensures SumSq(stored, detected + extra) == SumSq(stored, detected)
    decreases |stored|
  {
    if |stored| > 0 {
      var k := |stored| - 1;
      assert (detected + extra)[k] == detected[k];
      SumSqIgnoresExtra(stored[..k], detected, extra);
    }
  }

  /** The distance between two vectors of equal length does not depend on their order. */
  lemma {:induction false} SumSqSymmetric(a: seq<real>, b: seq<real>)
    requires |a| == |b|
    ensures SumSq(a, b) == SumSq(b, a)
    decreases |a|
  {
    if |a| > 0 {
      var k := |a| - 1;
      SumSqPrefixes(a, b, k);
      SumSqPrefixes(b, a, k);
      SumSqSymmetric(a[..k], b[..k]);
      assert (a[k] - b[k]) * (a[k] - b[k]) == (b[k] - a[k]) * (b[k] - a[k]);
    }
  }

  /** Only the first `|stored|` entries of the detected vector matter. */
  lemma {:induction false} SumSqPrefixes(stored: seq<real>, detected: seq<real>, k: nat)
    requires k <= |stored| <= |detected|
    ensures SumSq(stored[..k], detected) == SumSq(stored[..k], detected[..k])
    decreases k
  {
    if k > 0 {
      assert stored[..k][..k - 1] == stored[..k - 1];
      assert detected[..k][..k - 1] == detected[..k - 1];
      SumSqPrefixes(stored, detected, k - 1);
      SumSqPrefixes(stored[..k - 1], detected[..k], k - 1);
      assert stored[..k - 1][..k - 1] == stored[..k - 1];
    }
  }

  // ----- properties of the decision -----

  /** A distance exactly equal to the threshold is not a match. */
  lemma TieIsNoMatch(d: real, s: real, t: real)
    requires d >= 0.0 && d * d == s && d == t
    ensures !WithinThreshold(s, t)
  {
    SqrtComparison(d, s, t);
  }

  /**
   * Comparing a vector with the encoding of an embedding whose first row it
   * is gives distance 0: a match exactly when the threshold is positive.
   */
  lemma MatchesOwnEncoding(rows: Matrix, threshold: real, fmt: real -> string, parse: string -> Option<real>)
    requires FloatText(fmt, parse)
    requires |rows| >= 1 && forall i :: 0 <= i < |rows| ==> |rows[i]| >= 1
    ensures MatchDecision(Format(rows, fmt), rows[0], threshold, parse) == Success(threshold > 0.0)
  {
    RoundTrip(rows, fmt, parse);
    SumSqOfPrefix(rows[0], rows[0]);
    if threshold > 0.0 {
      ProductPositive(threshold, threshold);
    }
  }

  /** Only the first row of the stored embedding is compared: the rows after it never change the decision. */
  lemma OnlyFirstRowCompared(first: seq<real>, rest: Matrix, detected: seq<real>, threshold: real,
                             fmt: real -> string, parse: string -> Option<real>)
    requires FloatText(fmt, parse)
    requires |first| >= 1 && forall i :: 0 <= i < |rest| ==> |rest[i]| >= 1
    ensures MatchDecision(Format([first] + rest, fmt), detected, threshold, parse)
         == MatchDecision(Format([first], fmt), detected, threshold, parse)
  {
    RoundTrip([first] + rest, fmt, parse);
    RoundTrip([first], fmt, parse);
  }

  /** Extra detected entries are ignored; too few is the index error. */
  lemma ExtraDetectedIgnored(given: string, detected: seq<real>, extra: seq<real>, threshold: real,
                             parse: string -> Option<real>)
    requires MatchDecision(given, detected, threshold, parse).Success?
    ensures MatchDecision(given, detected + extra, threshold, parse) == MatchDecision(given, detected, threshold, parse)
  {
    var rows := Parse(given, parse).value;
    SumSqIgnoresExtra(rows[0], detected, extra);
  }
}
