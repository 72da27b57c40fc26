/** `promote` and `demote`: conversion to the `promote_result` (twice the
    size, twice the exponent) and to the `demote_result` (half the size, half
    the exponent) of a value's type. */
module Promotion {
  import opened Bits
  import opened IntKinds
  import opened Shifts
  import opened FixedPoint
  import opened TypeResolution

  /** `promote(from)`: `promote_result<FixedPoint>(from)`. */
  function Promote(x: Fixed): (r: Fixed)
    requires x.Valid() && x.kind.reprType.bytes <= 8
    ensures r.Valid() && r.kind == PromoteResult(x.kind)
  {
    ConvertFixed(PromoteResult(x.kind), x)
  }

  /** `demote(from)`: `demote_result<FixedPoint>(from)`. */
  function Demote(x: Fixed): (r: Fixed)
    requires x.Valid() && x.kind.reprType.bytes >= 2
    ensures r.Valid() && r.kind == DemoteResult(x.kind)
  {
    ConvertFixed(DemoteResult(x.kind), x)
  }

  /** A type whose fractional digits lie between 0 and its bits (its digits
      and its sign bit) promotes without loss: the representation is
      multiplied by 2^fractional_digits, which is the same value at the
      doubled exponent, and demoting the result gives the original value
      back. */
  lemma PromoteIsLossless(x: Fixed)
    requires x.Valid() && x.kind.reprType.bytes <= 8
    requires 0 <= FractionalDigits(x.kind) <= FixedDigits(x.kind) + SignBit(x.kind.reprType.signed)
    ensures Promote(x).repr == x.repr * Pow2(FractionalDigits(x.kind))
    ensures Demote(Promote(x)) == x
  {
    var k := x.kind;
    assert Digits(k.reprType) + FractionalDigits(k) <= Digits(NextSize(k.reprType));
    ScaledFits(k.reprType, NextSize(k.reprType), x.repr, FractionalDigits(k));
    ConvertRoundTrip(PromoteResult(k), x);
    DemotePromoteResult(k);
  }

  /** A type with exponent e > 0 has no fractional digits to double. Its
      promoted type has exponent 2e, so `promote` floors the representation
      by 2^e: the value survives exactly when 2^e divides the
      representation, and then demoting gives it back. */
  lemma PromoteFloors(x: Fixed)
    requires x.Valid() && x.kind.reprType.bytes <= 8 && x.kind.exponent > 0
    ensures Promote(x).repr == x.repr / Pow2(x.kind.exponent)
    ensures Promote(x).repr * Pow2(x.kind.exponent) == x.repr <==> x.repr % Pow2(x.kind.exponent) == 0
    ensures x.repr % Pow2(x.kind.exponent) == 0 ==> Demote(Promote(x)) == x
  {
    var k := x.kind;
    var p := Pow2(k.exponent);
    var q := x.repr / p;
    PromoteIsFloor(x);
    DivExact(x.repr, p);
    if x.repr % p == 0 {
      var y := Promote(x);
      DemotePromoteResult(k);
      assert DemoteResult(y.kind) == k;
      ConvertRoundTrip(k, y);
    }
  }

  /** The first half of `PromoteFloors`: the flooring itself. */
  lemma PromoteIsFloor(x: Fixed)
    requires x.Valid() && x.kind.reprType.bytes <= 8 && x.kind.exponent > 0
    ensures Promote(x).repr == x.repr / Pow2(x.kind.exponent)
  {
    var k := x.kind;
    var t := NextSize(k.reprType);
    var q := x.repr / Pow2(k.exponent);
    ConvertScales(PromoteResult(k), x);
    assert Promote(x).repr == Wrap(t, q);
    DivPreservesBounds(x.repr, Pow2(k.exponent), MinValue(k.reprType), MaxValue(k.reprType));
    RangeInclusion(k.reprType, t, q);
    WrapOfInRange(t, q);
  }

  /** As written, `promote` of 12 as `fixed_point<int8_t, 2>` (raw 3) is 0
      as `fixed_point<int16_t, 4>`, and demoting that gives 0, not 12. */
  lemma PromoteOfTwelveLosesIt()
    ensures Promote(Fixed(FixedKind(MakeInt(true, 1), 2), 3)) == Fixed(FixedKind(MakeInt(true, 2), 4), 0)
    ensures Demote(Promote(Fixed(FixedKind(MakeInt(true, 1), 2), 3))) == Fixed(FixedKind(MakeInt(true, 1), 2), 0)
  {
    var x := Fixed(FixedKind(MakeInt(true, 1), 2), 3);
    PromoteIsFloor(x);
    assert Pow2(2) == 4;
    var y := Promote(x);
    assert y.repr == 0 && y.kind == FixedKind(MakeInt(true, 2), 4);
    ConvertScales(DemoteResult(y.kind), y);
  }
}
