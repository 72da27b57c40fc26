/** The heterogeneous operator overloads: operands of two different
    fixed-point types, or a fixed-point and a built-in integer, are both cast
    to their `common_type` and the homogeneous operator applied there.
    Multiplication and division go through `_impl::multiply` and
    `_impl::divide`, with an integer operand first wrapped as a
    `fixed_point<Integer>` of exponent 0. */
module Operators {
  import opened Bits
  import opened IntKinds
  import opened Shifts
  import opened FixedPoint
  import opened TypeResolution
  import opened Multiplication
  import opened Division

  /** An operand of a mixed-mode operator: a fixed-point value, or the value
      v of a built-in integer type. */
  datatype Operand = FixedOperand(x: Fixed) | IntegerOperand(intKind: IntKind, v: int) {
    predicate Valid() {
      match this
      case FixedOperand(x) => x.Valid()
      case IntegerOperand(s, v) => s.Valid() && InRange(s, v)
    }

    function TypeOf(): OperandType {
      match this
      case FixedOperand(x) => FixedType(x.kind)
      case IntegerOperand(s, _) => IntegerType(s)
    }
  }

  /** `fixed_point<Integer>(v)`: the integer itself as the representation of
      exponent 0. */
  function AsFixed(s: IntKind, v: int): (r: Fixed)
    requires s.Valid() && InRange(s, v)
    ensures r.Valid() && r.kind == FixedKind(s, 0) && r.repr == v
  {
    WrapOfInRange(s, v);
    FromInteger(FixedKind(s, 0), s, v)
  }

  /** `static_cast<common_type>(operand)`: the converting constructor for a
      fixed-point operand, the integer constructor for an integer one. */
  function Cast(k: FixedKind, o: Operand): (r: Fixed)
    requires k.Valid() && o.Valid()
    ensures r.Valid() && r.kind == k
  {
    match o
    case FixedOperand(x) => ConvertFixed(k, x)
    case IntegerOperand(s, v) => FromInteger(k, s, v)
  }

  /** The operator templates are enabled only when one operand at least is
      fixed-point. */
  predicate Mixed(a: Operand, b: Operand)
  {
    a.Valid() && b.Valid() && (a.FixedOperand? || b.FixedOperand?)
  }

  function Common(a: Operand, b: Operand): (k: FixedKind)
    requires Mixed(a, b)
    ensures k.Valid()
  {
    CommonOperandType(a.TypeOf(), b.TypeOf())
  }

  /** Heterogeneous `==` (and `!=`, its negation). */
  predicate MixedEqual(a: Operand, b: Operand)
    requires Mixed(a, b)
  {
    var k := Common(a, b);
    Equal(Cast(k, a), Cast(k, b))
  }

  /** Heterogeneous `<` (and `>=`, its negation). */
  predicate MixedLess(a: Operand, b: Operand)
    requires Mixed(a, b)
  {
    var k := Common(a, b);
    Less(Cast(k, a), Cast(k, b))
  }

  /** Heterogeneous `>` (and `<=`, its negation): `>` of the two casts, which
      is `<` with the casts swapped. */
  predicate MixedGreater(a: Operand, b: Operand)
    requires Mixed(a, b)
  {
    var k := Common(a, b);
    Less(Cast(k, b), Cast(k, a))
  }

  /** Heterogeneous binary `+`. */
  function MixedAdd(a: Operand, b: Operand): (r: Fixed)
    requires Mixed(a, b)
    ensures r.Valid() && r.kind == Common(a, b)
  {
    var k := Common(a, b);
    Add(Cast(k, a), Cast(k, b))
  }

  /** Heterogeneous binary `-`. */
  function MixedSub(a: Operand, b: Operand): (r: Fixed)
    requires Mixed(a, b)
    ensures r.Valid() && r.kind == Common(a, b)
  {
    var k := Common(a, b);
    Sub(Cast(k, a), Cast(k, b))
  }

  /** Fixed-point `*` fixed-point: `multiply` into the common type. */
  function FixedTimesFixed(a: Fixed, b: Fixed): (r: Fixed)
    requires CanMultiply(a, b)
    ensures r.Valid() && r.kind == CommonType(a.kind, b.kind)
  {
    Multiply(CommonType(a.kind, b.kind), a, b)
  }

  /** Fixed-point `/` fixed-point: `divide` into the common type. */
  function FixedOverFixed(a: Fixed, b: Fixed): (r: Fixed)
    requires a.Valid() && b.Valid() && CanDivide(CommonType(a.kind, b.kind), a, b)
    ensures r.Valid() && r.kind == CommonType(a.kind, b.kind)
  {
    Divide(CommonType(a.kind, b.kind), a, b)
  }

  /** Fixed-point `*` integer, into the fixed-point operand's type. */
  function FixedTimesInteger(x: Fixed, s: IntKind, v: int): (r: Fixed)
    requires s.Valid() && InRange(s, v) && CanMultiply(x, AsFixed(s, v))
    ensures r.Valid() && r.kind == x.kind
  {
    Multiply(x.kind, x, AsFixed(s, v))
  }

  /** Integer `*` fixed-point, into the fixed-point operand's type. */
  function IntegerTimesFixed(s: IntKind, v: int, x: Fixed): (r: Fixed)
    requires s.Valid() && InRange(s, v) && CanMultiply(AsFixed(s, v), x)
    ensures r.Valid() && r.kind == x.kind
  {
    Multiply(x.kind, AsFixed(s, v), x)
  }

  /** Fixed-point `/` integer, into the fixed-point operand's type. */
  function FixedOverInteger(x: Fixed, s: IntKind, v: int): (r: Fixed)
    requires s.Valid() && InRange(s, v) && CanDivide(x.kind, x, AsFixed(s, v))
    ensures r.Valid() && r.kind == x.kind
  {
    Divide(x.kind, x, AsFixed(s, v))
  }

  /** Integer `/` fixed-point, into the fixed-point operand's type. */
  function IntegerOverFixed(s: IntKind, v: int, x: Fixed): (r: Fixed)
    requires s.Valid() && InRange(s, v) && CanDivide(x.kind, AsFixed(s, v), x)
    ensures r.Valid() && r.kind == x.kind
  {
    Divide(x.kind, AsFixed(s, v), x)
  }

  /** Swapping the operands swaps the casts and nothing else: `==` is
      symmetric, `>` is `<` with the operands swapped, and `+` commutes. */
  lemma MixedOperandsSwap(a: Operand, b: Operand)
    requires Mixed(a, b)
    ensures Common(a, b) == Common(b, a)
    ensures MixedEqual(a, b) <==> MixedEqual(b, a)
    ensures MixedGreater(a, b) <==> MixedLess(b, a)
    ensures MixedAdd(a, b) == MixedAdd(b, a)
  {
    CommonOperandTypeSymmetric(a.TypeOf(), b.TypeOf());
    var k := Common(a, b);
    var x, y := Cast(k, a), Cast(k, b);
    AddWraps(x, y);
    AddWraps(y, x);
  }

  /** Two operands of one fixed-point type meet in that type, so the
      heterogeneous operators agree with the homogeneous ones. */
  lemma MixedAgreesOnOneType(x: Fixed, y: Fixed)
    requires x.Valid() && y.Valid() && x.kind == y.kind
    ensures var a, b := FixedOperand(x), FixedOperand(y);
      Common(a, b) == x.kind &&
      (MixedEqual(a, b) <==> Equal(x, y)) && (MixedLess(a, b) <==> Less(x, y)) &&
      MixedAdd(a, b) == Add(x, y) && MixedSub(a, b) == Sub(x, y)
  {
    CommonTypeSymmetric(x.kind, x.kind);
    ConvertToSameKind(x);
    ConvertToSameKind(y);
  }

  /** Comparing a fixed-point value of exponent <= 0 with an integer that
      the type can hold: equal exactly when the representation is the
      integer times 2^fractional_digits. */
  lemma MixedEqualToInteger(x: Fixed, s: IntKind, v: int)
    requires x.Valid() && s.Valid() && InRange(s, v) && x.kind.exponent <= 0
    requires InRange(x.kind.reprType, v * Pow2(-x.kind.exponent))
    ensures MixedEqual(FixedOperand(x), IntegerOperand(s, v)) <==> x.repr == v * Pow2(-x.kind.exponent)
    ensures MixedLess(FixedOperand(x), IntegerOperand(s, v)) <==> x.repr < v * Pow2(-x.kind.exponent)
  {
    var a, b := FixedOperand(x), IntegerOperand(s, v);
    assert Common(a, b) == x.kind;
    assert Cast(x.kind, a) == x by {
      ConvertToSameKind(x);
    }
    assert Cast(x.kind, b).repr == v * Pow2(-x.kind.exponent) by {
      FromIntegerExact(x.kind, s, v);
    }
  }

  /** Multiplying by an integer keeps the exponent and multiplies the
      representation, reduced modulo 2^bits; the order of the operands does
      not matter. */
  lemma FixedTimesIntegerWraps(x: Fixed, s: IntKind, v: int)
    requires s.Valid() && InRange(s, v) && CanMultiply(x, AsFixed(s, v))
    ensures FixedTimesInteger(x, s, v).repr == Wrap(x.kind.reprType, x.repr * v)
    ensures IntegerTimesFixed(s, v, x) == FixedTimesInteger(x, s, v)
  {
    var b := AsFixed(s, v);
    MultiplyScales(x.kind, x, b);
    assert Pow2(0) == 1;
    MultiplyCommutes(x.kind, b, x);
  }

  /** Dividing a value that is not negative by a positive integer keeps the
      exponent and divides the representation, rounding down. */
  lemma FixedOverPositiveInteger(x: Fixed, s: IntKind, v: int)
    requires s.Valid() && InRange(s, v) && v > 0 && x.repr >= 0
    requires CanDivide(x.kind, x, AsFixed(s, v))
    ensures FixedOverInteger(x, s, v).repr == x.repr / v
  {
    DivideByPositiveInteger(x, AsFixed(s, v));
  }

  /** Fixed-point `/` fixed-point is the exact quotient `ExactQuotient`
      when the divisor's integer and fractional digits are not negative and
      the common type has lhs's integer digits plus rhs's fractional digits,
      one more when lhs is its minimum and rhs -1. */
  lemma FixedOverFixedWithoutWrap(a: Fixed, b: Fixed)
    requires a.Valid() && b.Valid() && CanDivide(CommonType(a.kind, b.kind), a, b)
    requires IntegerDigits(b.kind) >= 0 && FractionalDigits(b.kind) >= 0
    requires IntegerDigits(CommonType(a.kind, b.kind)) >= IntegerDigits(a.kind) + FractionalDigits(b.kind)
      + (if a.kind.reprType.signed && a.repr == MinValue(a.kind.reprType) && b.repr == -1 then 1 else 0)
    ensures FixedOverFixed(a, b).repr == ExactQuotient(CommonType(a.kind, b.kind), a, b)
  {
    var minByMinusOne := a.kind.reprType.signed && a.repr == MinValue(a.kind.reprType) && b.repr == -1;
    DivideWithoutWrap(CommonType(a.kind, b.kind), a, b, if minByMinusOne then 1 else 0);
  }

  /** Integer `/` fixed-point is the exact quotient `ExactQuotient` when the
      divisor's integer and fractional digits are not negative, the divisor
      is signed if the integer is, and its integer digits hold the integer's
      digits plus its own fractional digits, one more for the integer's
      minimum by -1. */
  lemma IntegerOverFixedWithoutWrap(s: IntKind, v: int, x: Fixed)
    requires s.Valid() && InRange(s, v) && CanDivide(x.kind, AsFixed(s, v), x)
    requires IntegerDigits(x.kind) >= 0 && FractionalDigits(x.kind) >= 0
    requires s.signed ==> x.kind.reprType.signed
    requires IntegerDigits(x.kind) >= Digits(s) + FractionalDigits(x.kind)
      + (if s.signed && v == MinValue(s) && x.repr == -1 then 1 else 0)
    ensures IntegerOverFixed(s, v, x).repr == ExactQuotient(x.kind, AsFixed(s, v), x)
  {
    var minByMinusOne := s.signed && v == MinValue(s) && x.repr == -1;
    DivideWithoutWrap(x.kind, AsFixed(s, v), x, if minByMinusOne then 1 else 0);
  }

  /** Member `*=` with an integer right operand: `_repr *= rhs`, the product
      of the two operands converted to their usual arithmetic type, cast back
      to the representation. */
  function ScaleByInteger(x: Fixed, s: IntKind, v: int): (r: Fixed)
    requires x.Valid() && s.Valid() && InRange(s, v)
    ensures r.Valid() && r.kind == x.kind
  {
    var w := UsualArithmetic(x.kind.reprType, s);
    FromData(x.kind, Wrap(w, Wrap(w, x.repr) * Wrap(w, v)))
  }

  /** Member `/=` with an integer right operand: `_repr /= rhs`, the quotient,
      rounded toward zero, of the two operands converted to their usual
      arithmetic type, cast back to the representation. */
  function DivideByInteger(x: Fixed, s: IntKind, v: int): (r: Fixed)
    requires x.Valid() && s.Valid() && InRange(s, v) && v != 0
    ensures r.Valid() && r.kind == x.kind
  {
    var w := UsualArithmetic(x.kind.reprType, s);
    WrapNonZero(w, s, v);
    FromData(x.kind, Wrap(w, TruncDiv(Wrap(w, x.repr), Wrap(w, v))))
  }

  /** `*=` by an integer multiplies the representation modulo 2^bits, however
      wide the integer's type, and so agrees with `*` by that integer. */
  lemma ScaleByIntegerWraps(x: Fixed, s: IntKind, v: int)
    requires x.Valid() && s.Valid() && InRange(s, v)
    ensures ScaleByInteger(x, s, v).repr == Wrap(x.kind.reprType, x.repr * v)
    ensures CanMultiply(x, AsFixed(s, v)) ==> ScaleByInteger(x, s, v) == FixedTimesInteger(x, s, v)
  {
    var t, w := x.kind.reprType, UsualArithmetic(x.kind.reprType, s);
    ProductThroughWider(t, w, x.repr, v);
    if CanMultiply(x, AsFixed(s, v)) {
      FixedTimesIntegerWraps(x, s, v);
    }
  }

  /** Casting both factors to a kind w at least as wide as k, multiplying in w
      and casting the product to k is the product cast to k. */
  lemma ProductThroughWider(k: IntKind, w: IntKind, a: int, b: int)
    requires k.Valid() && w.Valid() && k.bytes <= w.bytes
    ensures Wrap(k, Wrap(w, Wrap(w, a) * Wrap(w, b))) == Wrap(k, a * b)
  {
    var wa, wb := Wrap(w, a), Wrap(w, b);
    WrapThroughWider(k, w, wa * wb);
    WrapThroughWider(k, w, a);
    WrapThroughWider(k, w, b);
    WrapMul(k, wa, a, wb);
    WrapMul(k, wb, b, a);
    assert a * wb == wb * a && b * a == a * b;
  }

  /** When the usual arithmetic type is signed it holds both operands, so `/=`
      by an integer is C++ division, rounding toward zero, cast to the
      representation; a value that is not negative divided by a positive
      integer is exactly the floored quotient, as with `/`. */
  lemma DivideByIntegerTruncates(x: Fixed, s: IntKind, v: int)
    requires x.Valid() && s.Valid() && InRange(s, v) && v != 0
    requires UsualArithmetic(x.kind.reprType, s).signed
    ensures DivideByInteger(x, s, v).repr == Wrap(x.kind.reprType, TruncDiv(x.repr, v))
    ensures x.repr >= 0 && v > 0 ==> DivideByInteger(x, s, v).repr == x.repr / v
    ensures x.repr >= 0 && v > 0 && CanDivide(x.kind, x, AsFixed(s, v))
      ==> DivideByInteger(x, s, v) == FixedOverInteger(x, s, v)
  {
    var t, w := x.kind.reprType, UsualArithmetic(x.kind.reprType, s);
    RangeInclusion(t, w, x.repr);
    RangeInclusion(s, w, v);
    WrapOfInRange(w, x.repr);
    WrapOfInRange(w, v);
    var q := TruncDiv(x.repr, v);
    WrapThroughWider(t, w, q);
    if x.repr >= 0 && v > 0 {
      assert q == x.repr / v;
      DivPreservesBounds(x.repr, v, 0, x.repr);
      WrapOfInRange(t, q);
      if CanDivide(x.kind, x, AsFixed(s, v)) {
        FixedOverPositiveInteger(x, s, v);
      }
    }
  }

  /** `/=` by an integer rounds toward zero where `/` floors: for
      `fixed_point<int32_t, 0>`, -7 /= 2 gives -3. */
  lemma DivideByIntegerOfMinusSeven(k: FixedKind, x: Fixed, s: IntKind)
    requires k == FixedKind(MakeInt(true, 4), 0) && x == Fixed(k, -7) && s == MakeInt(true, 4)
    ensures DivideByInteger(x, s, 2).repr == -3
  {
    DivideByIntegerTruncates(x, s, 2);
    assert TruncDiv(-7, 2) == -3;
  }
}
