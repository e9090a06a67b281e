/** The step that the duration decomposition repeats for each unit: divide by
    the unit size, keep the remainder as this unit's field and carry the
    quotient on to the next, coarser unit. Written once over a list of unit
    sizes (finest first), with its inverse, the weighted sum of the fields. */
module MixedRadix {
  import DivArith

  /** Every unit size is a positive divisor. */
  predicate PositiveRadices(radices: seq<nat>)
  {
    forall i :: 0 <= i < |radices| ==> 0 < radices[i]
  }

  /** Each field but the last (the coarsest, which takes whatever is carried
      into it) lies below its unit size. */
  predicate InRange(digits: seq<nat>, radices: seq<nat>)
    requires |digits| == |radices| + 1
  {
    forall i :: 0 <= i < |radices| ==> digits[i] < radices[i]
  }

  /** The fields of `n`, finest first: one remainder per unit size, then the
      final quotient. */
  function Digits(n: nat, radices: seq<nat>): (digits: seq<nat>)
    requires PositiveRadices(radices)
    ensures |digits| == |radices| + 1
    ensures InRange(digits, radices)
    decreases |radices|
  {
    if radices == [] then [n]
    else [n % radices[0]] + Digits(n / radices[0], radices[1..])
  }

  /** The number the fields stand for: each field weighted by the product of the
      unit sizes below it. */
  function Value(digits: seq<nat>, radices: seq<nat>): nat
    requires |digits| == |radices| + 1
    decreases |radices|
  {
    if radices == [] then digits[0]
    else digits[0] + radices[0] * Value(digits[1..], radices[1..])
  }

  /** Splitting into fields loses nothing: the fields add back up to `n`. */
  lemma {:induction false} ValueOfDigits(n: nat, radices: seq<nat>)
    requires PositiveRadices(radices)
    ensures Value(Digits(n, radices), radices) == n
    decreases |radices|
  {
    if radices != [] {
      ValueOfDigits(n / radices[0], radices[1..]);
    }
  }

  /** Fields within range are exactly the fields of the number they stand for. */
  lemma {:induction false} DigitsOfValue(digits: seq<nat>, radices: seq<nat>)
    requires PositiveRadices(radices)
    requires |digits| == |radices| + 1 && InRange(digits, radices)
    ensures Digits(Value(digits, radices), radices) == digits
    decreases |radices|
  {
    if radices != [] {
      var carried := Value(digits[1..], radices[1..]);
      DivArith.DivModUnique(Value(digits, radices), radices[0], carried, digits[0]);
      DigitsOfValue(digits[1..], radices[1..]);
      assert digits == [digits[0]] + digits[1..];
    }
  }
}
