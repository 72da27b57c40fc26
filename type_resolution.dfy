/** The type-level part of the header: the aliases that pick a fixed-point
    specialisation (`make_fixed`, `make_fixed_from_repr`, `promote_result`,
    `demote_result`, `_common_type` and every `trunc_*_result` and
    `promote_*_result`) as functions from kinds to kinds. */
module TypeResolution {
  import opened Bits
  import opened IntKinds
  import opened FixedPoint

  function SignBit(signed: bool): nat
  {
    if signed then 1 else 0
  }

  /** `make_fixed<IntegerDigits, FractionalDigits, IsSigned>`: the narrowest
      representation with IntegerDigits + FractionalDigits + sign bits, and the
      exponent that puts exactly IntegerDigits digits above the binary point.
      Both digit counts are `unsigned` template arguments. */
  function MakeFixed(integerDigits: int, fractionalDigits: int, signed: bool): (r: FixedKind)
    requires integerDigits >= 0 && fractionalDigits >= 0
    requires 1 <= integerDigits + fractionalDigits + SignBit(signed) <= 128
    ensures r.Valid() && r.reprType.signed == signed
    ensures IntegerDigits(r) == integerDigits
    ensures FractionalDigits(r) >= fractionalDigits
    ensures forall b | IsSupportedSize(b) && 8 * b >= integerDigits + fractionalDigits + SignBit(signed)
      :: r.reprType.bytes <= b
  {
    var reprType := SufficientRepr(integerDigits + fractionalDigits + SignBit(signed), signed);
    FixedKind(reprType, integerDigits + SignBit(signed) - NumBits(reprType))
  }

  /** `make_ufixed`: `make_fixed` without a sign bit. */
  function MakeUfixed(integerDigits: int, fractionalDigits: int): (r: FixedKind)
    requires integerDigits >= 0 && fractionalDigits >= 0
    requires 1 <= integerDigits + fractionalDigits <= 128
    ensures r.Valid() && !r.reprType.signed
    ensures IntegerDigits(r) == integerDigits && FractionalDigits(r) >= fractionalDigits
  {
    MakeFixed(integerDigits, fractionalDigits, false)
  }

  /** `make_fixed_from_repr<ReprType, IntegerDigits>`: the exponent that gives
      a representation type exactly IntegerDigits integer digits. */
  function MakeFixedFromRepr(reprType: IntKind, integerDigits: int): (r: FixedKind)
    requires reprType.Valid()
    ensures r.Valid() && r.reprType == reprType
    ensures IntegerDigits(r) == integerDigits
  {
    FixedKind(reprType, integerDigits + SignBit(reprType.signed) - NumBits(reprType))
  }

  /** Every kind is `make_fixed_from_repr` of its own integer digits. */
  lemma MakeFixedFromReprOfOwnDigits(k: FixedKind)
    requires k.Valid()
    ensures MakeFixedFromRepr(k.reprType, IntegerDigits(k)) == k
  {
  }

  /** `promote_result`: the next size with twice the exponent, so twice the
      fractional digits and twice the integer digits (plus the sign bit). */
  function PromoteResult(k: FixedKind): (r: FixedKind)
    requires k.Valid() && k.reprType.bytes <= 8
    ensures r.Valid() && r.reprType.signed == k.reprType.signed
    ensures FractionalDigits(r) == 2 * FractionalDigits(k)
    ensures IntegerDigits(r) == 2 * IntegerDigits(k) + SignBit(k.reprType.signed)
  {
    FixedKind(NextSize(k.reprType), 2 * k.exponent)
  }

  /** `demote_result`: the previous size with half the exponent, halved by the
      C++ `/`, which truncates toward zero. */
  function DemoteResult(k: FixedKind): (r: FixedKind)
    requires k.Valid() && k.reprType.bytes >= 2
    ensures r.Valid() && r.reprType.signed == k.reprType.signed
    ensures 2 * NumBits(r.reprType) == NumBits(k.reprType)
    ensures 2 * r.exponent == k.exponent || 2 * r.exponent == k.exponent - 1
      || 2 * r.exponent == k.exponent + 1
  {
    FixedKind(PreviousSize(k.reprType), TruncDiv(k.exponent, 2))
  }

  /** Demotion undoes promotion; promotion undoes demotion exactly when the
      exponent is even. */
  lemma DemotePromoteResult(k: FixedKind)
    requires k.Valid()
    ensures k.reprType.bytes <= 8 ==> DemoteResult(PromoteResult(k)) == k
    ensures k.reprType.bytes >= 2 ==>
      (PromoteResult(DemoteResult(k)) == k <==> k.exponent % 2 == 0)
  {
    NextPreviousInverse(k.reprType);
    if k.reprType.bytes <= 8 {
      TruncDivExact(k.exponent, 2);
    }
    if k.reprType.bytes >= 2 {
      var q := TruncDiv(k.exponent, 2);
      if k.exponent % 2 == 0 {
        TruncDivExact(k.exponent / 2, 2);
        assert k.exponent == (k.exponent / 2) * 2;
      }
    }
  }

  /** `_common_type` of two fixed-point types: the common representation type
      with as many integer digits as the larger of the two. */
  function CommonType(a: FixedKind, b: FixedKind): (r: FixedKind)
    requires a.Valid() && b.Valid()
    ensures r.Valid()
    ensures IntegerDigits(r) == Max(IntegerDigits(a), IntegerDigits(b))
    ensures r.reprType.bytes == Max(a.reprType.bytes, b.reprType.bytes)
    ensures r.reprType.signed <==> a.reprType.signed || b.reprType.signed
  {
    var reprType := CommonReprType([a.reprType, b.reprType]);
    assert [a.reprType, b.reprType][1] == b.reprType;
    MakeFixedFromRepr(reprType, Max(IntegerDigits(a), IntegerDigits(b)))
  }

  /** The common type does not depend on the order of the operands, and the
      common type of a type with itself is that type. */
  lemma CommonTypeSymmetric(a: FixedKind, b: FixedKind)
    requires a.Valid() && b.Valid()
    ensures CommonType(a, b) == CommonType(b, a)
    ensures CommonType(a, a) == a
  {
    CommonReprTypeOrderFree([a.reprType, b.reprType], [b.reprType, a.reprType]);
    assert [a.reprType][0] == a.reprType;
  }

  /** The type of an operand of a mixed-mode operator: a fixed-point or a
      built-in integer type (floating-point operands are not modelled). */
  datatype OperandType = FixedType(kind: FixedKind) | IntegerType(intKind: IntKind) {
    predicate Valid() {
      match this
      case FixedType(k) => k.Valid()
      case IntegerType(i) => i.Valid()
    }
  }

  /** `_common_type<Lhs, Rhs>` where one side at least is fixed-point: two
      fixed-point types meet in `CommonType`, a fixed-point type and an integer
      type resolve to the fixed-point type, whichever side the integer is on
      (the header swaps an integer on the left to the right). */
  function CommonOperandType(a: OperandType, b: OperandType): (r: FixedKind)
    requires a.Valid() && b.Valid() && (a.FixedType? || b.FixedType?)
    ensures r.Valid()
    ensures a.FixedType? && b.IntegerType? ==> r == a.kind
    ensures a.IntegerType? && b.FixedType? ==> r == b.kind
  {
    match (a, b)
    case (FixedType(x), FixedType(y)) => CommonType(x, y)
    case (FixedType(x), IntegerType(_)) => x
    case (IntegerType(_), FixedType(y)) => y
  }

  lemma CommonOperandTypeSymmetric(a: OperandType, b: OperandType)
    requires a.Valid() && b.Valid() && (a.FixedType? || b.FixedType?)
    ensures CommonOperandType(a, b) == CommonOperandType(b, a)
  {
    if a.FixedType? && b.FixedType? {
      CommonTypeSymmetric(a.kind, b.kind);
    }
  }

  /** `trunc_add_result<FixedPoint, N>`: `capacity<N - 1>` more integer
      digits in the same representation type. N is an `unsigned`, so for
      N = 0 the subtraction wraps round to 2^32 - 1. */
  function TruncAddResult(k: FixedKind, n: nat): (r: FixedKind)
    requires k.Valid() && n < 0x1_0000_0000
    ensures r.Valid() && r.reprType == k.reprType
    ensures n >= 1 ==> IntegerDigits(r) == IntegerDigits(k) + Capacity(n - 1)
    ensures n >= 1 ==> n <= Pow2(r.exponent - k.exponent)
  {
    MakeFixedFromRepr(k.reprType, IntegerDigits(k) + Capacity(if n == 0 then 0xFFFF_FFFF else n - 1))
  }

  /** `trunc_subtract_result<Lhs, Rhs>`: a signed representation as wide as
      the wider operand, with one integer digit more than either. */
  function TruncSubtractResult(a: FixedKind, b: FixedKind): (r: FixedKind)
    requires a.Valid() && b.Valid()
    ensures r.Valid() && r.reprType.signed
    ensures r.reprType.bytes == Max(a.reprType.bytes, b.reprType.bytes)
    ensures IntegerDigits(r) == Max(IntegerDigits(a), IntegerDigits(b)) + 1
  {
    MakeFixedFromRepr(MakeInt(true, Max(a.reprType.bytes, b.reprType.bytes)),
      Max(IntegerDigits(a), IntegerDigits(b)) + 1)
  }

  /** `trunc_multiply_result<Lhs, Rhs>`: the common representation type with
      the integer digits of both factors. */
  function TruncMultiplyResult(a: FixedKind, b: FixedKind): (r: FixedKind)
    requires a.Valid() && b.Valid()
    ensures r.Valid() && r.reprType == CommonType(a, b).reprType
    ensures IntegerDigits(r) == IntegerDigits(a) + IntegerDigits(b)
  {
    MakeFixedFromRepr(CommonReprType([a.reprType, b.reprType]), IntegerDigits(a) + IntegerDigits(b))
  }

  /** `trunc_divide_result<Dividend, Divisor>`: the common representation type
      with the dividend's integer digits plus the divisor's fractional digits. */
  function TruncDivideResult(a: FixedKind, b: FixedKind): (r: FixedKind)
    requires a.Valid() && b.Valid()
    ensures r.Valid() && r.reprType == CommonType(a, b).reprType
    ensures IntegerDigits(r) == IntegerDigits(a) + FractionalDigits(b)
  {
    MakeFixedFromRepr(CommonReprType([a.reprType, b.reprType]), IntegerDigits(a) + FractionalDigits(b))
  }

  /** `trunc_reciprocal_result<FixedPoint>`: the same representation type with
      one more integer digit than the input has fractional digits. */
  function TruncReciprocalResult(k: FixedKind): (r: FixedKind)
    requires k.Valid()
    ensures r.Valid() && r.reprType == k.reprType
    ensures IntegerDigits(r) == FractionalDigits(k) + 1
  {
    MakeFixedFromRepr(k.reprType, FractionalDigits(k) + 1)
  }

  /** `trunc_square_result<FixedPoint>`: the unsigned representation of the
      same size with twice the integer digits. */
  function TruncSquareResult(k: FixedKind): (r: FixedKind)
    requires k.Valid()
    ensures r.Valid() && r.reprType == MakeUnsigned(k.reprType)
    ensures IntegerDigits(r) == 2 * IntegerDigits(k)
  {
    MakeFixedFromRepr(MakeUnsigned(k.reprType), IntegerDigits(k) * 2)
  }

  /** `trunc_sqrt_result<FixedPoint>`: the unsigned representation of the same
      size with (integer_digits + 1) / 2 integer digits, C++ division. */
  function TruncSqrtResult(k: FixedKind): (r: FixedKind)
    requires k.Valid()
    ensures r.Valid() && r.reprType == MakeUnsigned(k.reprType)
    ensures 2 * IntegerDigits(r) == IntegerDigits(k) + 1 || 2 * IntegerDigits(r) == IntegerDigits(k)
      || 2 * IntegerDigits(r) == IntegerDigits(k) + 2
  {
    MakeFixedFromRepr(MakeUnsigned(k.reprType), TruncDiv(IntegerDigits(k) + 1, 2))
  }

  /** `promote_multiply_result` and `promote_divide_result`: the promotion of
      the common type. */
  function PromoteMultiplyResult(a: FixedKind, b: FixedKind): (r: FixedKind)
    requires a.Valid() && b.Valid() && a.reprType.bytes <= 8 && b.reprType.bytes <= 8
    ensures r.Valid() && r.reprType.bytes == 2 * Max(a.reprType.bytes, b.reprType.bytes)
    ensures FractionalDigits(r) == 2 * FractionalDigits(CommonType(a, b))
  {
    PromoteResult(CommonType(a, b))
  }

  function PromoteDivideResult(a: FixedKind, b: FixedKind): (r: FixedKind)
    requires a.Valid() && b.Valid() && a.reprType.bytes <= 8 && b.reprType.bytes <= 8
    ensures r.Valid() && r.reprType.bytes == 2 * Max(a.reprType.bytes, b.reprType.bytes)
    ensures FractionalDigits(r) == 2 * FractionalDigits(CommonType(a, b))
  {
    PromoteResult(CommonType(a, b))
  }

  /** `promote_square_result<FixedPoint>`: `make_ufixed` with twice the
      integer and twice the fractional digits, i.e. twice the digits. Both
      counts are `unsigned` template arguments, so neither may be negative. */
  function PromoteSquareResult(k: FixedKind): (r: FixedKind)
    requires k.Valid() && k.reprType.bytes <= 8
    requires 0 <= FractionalDigits(k) <= FixedDigits(k)
    ensures r.Valid() && !r.reprType.signed
    ensures IntegerDigits(r) == 2 * IntegerDigits(k)
    ensures FractionalDigits(r) >= 2 * FractionalDigits(k)
    ensures r.reprType.bytes <= 2 * k.reprType.bytes
  {
    MakeUfixed(IntegerDigits(k) * 2, FractionalDigits(k) * 2)
  }
}
