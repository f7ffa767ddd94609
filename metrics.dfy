/** Bit-error rates between an embedded and an extracted message. */
module Metrics {
  import opened Outcomes

  datatype BerError = LengthMismatch

  /** numpy's quotient of the error count by the length: a rate, or NaN
      when both sequences are empty (0 / 0 on numpy integers). */
  datatype Rate = Value(rate: real) | NaN

  /** Positions where the two sequences differ. */
  function Mismatches<T(==)>(a: seq<T>, b: seq<T>): (r: nat)
    requires |a| == |b|
    ensures r <= |a|
  {
    if a == [] then 0 else Mismatches(a[1..], b[1..]) + (if a[0] != b[0] then 1 else 0)
  }

  /** No mismatch exactly when the sequences are equal. */
  lemma {:induction false} NoMismatchesIffEqual<T>(a: seq<T>, b: seq<T>)
    requires |a| == |b|
    ensures Mismatches(a, b) == 0 <==> a == b
  {
    if a != [] {
      NoMismatchesIffEqual(a[1..], b[1..]);
      if a[0] == b[0] && a[1..] == b[1..] {
        assert a == [a[0]] + a[1..] && b == [b[0]] + b[1..];
      }
    }
  }

  /** Every position mismatches exactly when the sequences differ
      everywhere. */
  lemma {:induction false} AllMismatchIffDisjoint<T>(a: seq<T>, b: seq<T>)
    requires |a| == |b|
    ensures Mismatches(a, b) == |a| <==> forall i :: 0 <= i < |a| ==> a[i] != b[i]
  {
    if a != [] {
      AllMismatchIffDisjoint(a[1..], b[1..]);
      if forall i :: 0 <= i < |a| - 1 ==> a[1..][i] != b[1..][i] {
        forall i | 1 <= i < |a|
          ensures a[i] != b[i]
        {
          assert a[1..][i - 1] != b[1..][i - 1];
        }
      }
    }
  }

  /** The count does not depend on which sequence comes first. */
  lemma {:induction false} MismatchesSymmetric<T>(a: seq<T>, b: seq<T>)
    requires |a| == |b|
    ensures Mismatches(a, b) == Mismatches(b, a)
  {
    if a != [] {
      MismatchesSymmetric(a[1..], b[1..]);
    }
  }

  /** `calculate_ber`: fails on a length mismatch; otherwise the fraction of
      differing positions, which lies in [0, 1]. */
  function CalculateBer<T(==)>(originalBits: seq<T>, extractedBits: seq<T>): (r: Result<Rate, BerError>)
    ensures r.Failure? <==> |originalBits| != |extractedBits|
    ensures r.Success? && originalBits == [] ==> r.value == NaN
    ensures r.Success? && originalBits != [] ==>
      r.value.Value? && 0.0 <= r.value.rate <= 1.0 &&
      r.value.rate * |originalBits| as real == Mismatches(originalBits, extractedBits) as real
  {
    if |originalBits| != |extractedBits| then Failure(LengthMismatch)
    else if originalBits == [] then Success(NaN)
    else
      var errorBits := Mismatches(originalBits, extractedBits);
      Success(Value(errorBits as real / |originalBits| as real))
  }

  /** The rate is 0 exactly when the extracted bits equal the original. */
  lemma BerZeroIffEqual<T>(originalBits: seq<T>, extractedBits: seq<T>)
    requires |originalBits| == |extractedBits| > 0
    ensures CalculateBer(originalBits, extractedBits) == Success(Value(0.0)) <==> originalBits == extractedBits
  {
    NoMismatchesIffEqual(originalBits, extractedBits);
  }

  /** The rate is 1 exactly when every bit differs; in particular for the
      complement of the original bits. */
  lemma BerOneIffComplement(originalBits: seq<bool>, extractedBits: seq<bool>)
    requires |originalBits| == |extractedBits| > 0
    ensures CalculateBer(originalBits, extractedBits) == Success(Value(1.0))
      <==> forall i :: 0 <= i < |originalBits| ==> extractedBits[i] == !originalBits[i]
  {
    AllMismatchIffDisjoint(originalBits, extractedBits);
    var n := |originalBits| as real;
    if Mismatches(originalBits, extractedBits) == |originalBits| {
      assert n / n == 1.0;
    }
  }

  /** The measure is symmetric. */
  lemma BerSymmetric<T>(originalBits: seq<T>, extractedBits: seq<T>)
    ensures CalculateBer(originalBits, extractedBits) == CalculateBer(extractedBits, originalBits)
  {
    if |originalBits| == |extractedBits| {
      MismatchesSymmetric(originalBits, extractedBits);
    }
  }

  /** `calculate_ber_text`: 1.0 when either text is missing or empty;
      otherwise the mismatches over the shorter length plus the characters
      the extracted text lacks, over the original's length. Characters the
      extracted text has beyond the original are not counted. */
  function CalculateBerText(originalText: Option<string>, extractedText: Option<string>): (r: real)
    ensures 0.0 <= r <= 1.0
    ensures originalText.None? || extractedText.None? ==> r == 1.0
    ensures originalText.Some? && extractedText.Some? && (originalText.value == [] || extractedText.value == [])
      ==> r == 1.0
  {
    if originalText.None? || extractedText.None? then 1.0
    else
      var original, extracted := originalText.value, extractedText.value;
      var minLength := if |original| < |extracted| then |original| else |extracted|;
      if minLength == 0 then 1.0
      else
        var errorCount := Mismatches(original[..minLength], extracted[..minLength]) +
          (if |original| > minLength then |original| - minLength else 0);
        errorCount as real / |original| as real
  }

  /** The text rate is 0 exactly when both texts are non-empty and the
      original is a prefix of the extracted text. */
  lemma BerTextZeroIffPrefix(original: string, extracted: string)
    ensures CalculateBerText(Some(original), Some(extracted)) == 0.0
      <==> original != [] && |original| <= |extracted| && extracted[.. |original|] == original
  {
    var minLength := if |original| < |extracted| then |original| else |extracted|;
    if minLength > 0 {
      NoMismatchesIffEqual(original[..minLength], extracted[..minLength]);
      if |original| <= |extracted| {
        assert original[..minLength] == original;
      }
    }
  }

  /** A non-empty text compared with itself has rate 0. */
  lemma BerTextIdentity(text: string)
    requires text != []
    ensures CalculateBerText(Some(text), Some(text)) == 0.0
  {
    BerTextZeroIffPrefix(text, text);
  }

  /** Characters the extracted text has beyond the original's length do
      not change the text rate. */
  lemma BerTextIgnoresExtraTail(original: string, extracted: string, tail: string)
    requires |original| <= |extracted|
    ensures CalculateBerText(Some(original), Some(extracted + tail)) == CalculateBerText(Some(original), Some(extracted))
  {
    assert (extracted + tail)[.. |original|] == extracted[.. |original|];
  }

  /** The text measure is not symmetric: trailing extra characters count
      only when the original has them. */
  lemma BerTextAsymmetric()
    ensures CalculateBerText(Some("a"), Some("ab")) == 0.0
    ensures CalculateBerText(Some("ab"), Some("a")) == 0.5
  {
    BerTextZeroIffPrefix("a", "ab");
    assert "ab"[..1] == "a"[..1];
    NoMismatchesIffEqual("ab"[..1], "a"[..1]);
  }
}
